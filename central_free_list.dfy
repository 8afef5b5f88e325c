/**
 * The central free list (middle-end): one per size class, a list of the
 * spans of that class that still have free objects. Batches of objects are
 * taken from the head span; when no span has a free object, a span of the
 * class's page count is fetched from the page heap and carved into objects.
 * Objects coming back go to the free chain of the span their page maps to;
 * a span whose objects are all back is given back to the page heap, except
 * that the last listed span is kept.
 *
 * The list's state is mirrored by a CentralViews.View (its snapshot); each
 * step is proved to make the transition of that module, which keeps the
 * invariant `Fine`.
 */
module CentralFreeLists {
  import opened Config
  import opened Spans
  import opened PageMaps
  import opened PageHeaps
  import opened SizeClass
  import opened CentralViews
  import HeapViews

  /** What the list's books say of a span, read off the span itself. */
  ghost function RecOf(s: Span): Rec
    reads s`sizeClass, s`startPage, s`numPages, s`allocatedCount, s`totalCount, s`freelist, s`out
  {
    Rec(s.sizeClass, s.startPage, s.numPages, s.allocatedCount, s.totalCount, s.freelist, s.out)
  }

  /** The books of a span of `pages` pages from `start` just carved for class cls. */
  ghost function CarvedFor(cls: nat, start: nat, pages: nat): Rec
    requires 1 <= cls < NUM_SIZE_CLASSES
  {
    ObjectsPerSpanPositive(cls);
    Fresh(cls, start, pages, ClassInfo(cls).size)
  }

  /** How many idle spans insert_range_dropping_lock holds back until its lock is dropped. */
  const MAX_FREED: nat := 8

  /** The spans in the first n slots of a. */
  ghost function Held(a: array<Span?>, n: nat): set<Span?>
    reads a
    requires n <= a.Length
  {
    set x | x in a[..n]
  }

  function Min(a: nat, b: nat): nat
  {
    if a < b then a else b
  }

  /** The objects of a sequence, as a set. */
  function Elems(xs: seq<nat>): set<nat>
  {
    set o | o in xs
  }

  /** A chain of distinct objects that are all out is pending, and so is none of it. */
  lemma PendingFrom(v: View, objs: seq<nat>)
    requires Fine(v, null) && NoDup(objs) && Elems(objs) <= OutOf(v)
    ensures Pending(v, objs) && Pending(v, objs[..0]) && ReclaimAll(v, objs[..0]) == v
  {
    hide Fine, OutOf;
    assert objs[..0] == [];
  }

  /** The books R agree with what each span of S says of itself. */
  ghost predicate CoupledOn(S: set<Span>, R: map<Span, Rec>)
    reads S`sizeClass, S`startPage, S`numPages, S`allocatedCount, S`totalCount, S`freelist, S`out
  {
    forall s :: s in S ==> s in R && R[s] == RecOf(s)
  }

  /** Books that agree on S agree on any part of S, whatever the books say beyond it. */
  lemma CoupledLess(S: set<Span>, R: map<Span, Rec>, t: Span)
    requires CoupledOn(S, R)
    ensures CoupledOn(S - {t}, R) && CoupledOn(S - {t}, R - {t})
  {
  }

  /** A span's current record joins books that agree. */
  lemma CoupledMore(S: set<Span>, R: map<Span, Rec>, t: Span)
    requires CoupledOn(S, R)
    ensures CoupledOn(S + {t}, R[t := RecOf(t)])
  {
  }

  /** A span of S taken out of agreeing books and put back with its current record. */
  lemma CoupledBack(S: set<Span>, R: map<Span, Rec>, t: Span)
    requires t in S && CoupledOn(S - {t}, R)
    ensures CoupledOn(S, R[t := RecOf(t)])
  {
    assert S == S - {t} + {t};
    CoupledMore(S - {t}, R, t);
  }

  /** Agreeing books give each span of S its record. */
  lemma CoupledAt(S: set<Span>, R: map<Span, Rec>, t: Span)
    requires CoupledOn(S, R) && t in S
    ensures t in R && R[t] == RecOf(t)
  {
  }

  /** xs back to front. */
  function Reversed(xs: seq<nat>): (r: seq<nat>)
    ensures |r| == |xs| && forall i :: 0 <= i < |xs| ==> r[i] == xs[|xs| - 1 - i]
  {
    if xs == [] then [] else [xs[|xs| - 1]] + Reversed(xs[..|xs| - 1])
  }

  /** Putting an object not yet present in front of a sequence without repeats. */
  lemma NoDupCons(x: nat, xs: seq<nat>)
    requires NoDup(xs) && x !in xs
    ensures NoDup([x] + xs) && Elems([x] + xs) == {x} + Elems(xs)
  {
    var ys := [x] + xs;
    forall i, j | 0 <= i < j < |ys|
      ensures ys[i] != ys[j]
    {
      assert ys[j] == xs[j - 1];
      if i > 0 {
        assert ys[i] == xs[i - 1];
      }
    }
  }

  /** Joining two sequences without repeats and without common objects. */
  lemma NoDupJoin(xs: seq<nat>, ys: seq<nat>)
    requires NoDup(xs) && NoDup(ys) && Elems(xs) !! Elems(ys)
    ensures NoDup(xs + ys) && Elems(xs + ys) == Elems(xs) + Elems(ys)
  {
    var zs := xs + ys;
    forall i, j | 0 <= i < j < |zs|
      ensures zs[i] != zs[j]
    {
      if j < |xs| {
        assert zs[i] == xs[i] && zs[j] == xs[j];
      } else if i >= |xs| {
        assert zs[i] == ys[i - |xs|] && zs[j] == ys[j - |xs|];
      } else {
        assert zs[i] in Elems(xs) && zs[j] == ys[j - |xs|] && zs[j] in Elems(ys);
      }
    }
  }

  /** The span's free chain gives up its head, which is now out. */
  method PopObject(span: Span) returns (obj: nat)
    requires span.freelist != []
    modifies span`freelist, span`allocatedCount, span`out
    ensures obj == old(span.freelist[0]) && RecOf(span) == TakeRec(old(RecOf(span)))
  {
    obj := span.freelist[0];
    span.freelist := span.freelist[1..];
    span.allocatedCount := span.allocatedCount + 1;
    span.out := span.out + {obj};
  }

  /**
   * insert_range's writes for one object: it goes to the head of its span's
   * free chain and is no longer out, and a span that was full is pushed on
   * the list.
   */
  method GiveBack(list: SpanList, span: Span, obj: nat)
    requires list.Valid() && span.allocatedCount >= 1 && (span.freelist == [] ==> span !in list.Items)
    modifies list, list.Items`prev, span`freelist, span`allocatedCount, span`out, span`prev, span`next
    ensures list.Valid() && RecOf(span) == ReturnRec(old(RecOf(span)), obj)
    ensures list.Items == if old(span.freelist) == [] then [span] + old(list.Items) else old(list.Items)
  {
    var wasFull := span.freelist == [];
    span.freelist := [obj] + span.freelist;
    span.allocatedCount := span.allocatedCount - 1;
    span.out := span.out - {obj};
    if wasFull {
      list.Push(span);
    }
  }

  /** SpanList::remove, for a span known to be listed. */
  method Delist(list: SpanList, span: Span)
    requires list.Valid() && span in list.Items
    modifies list, list.Items`prev, list.Items`next
    ensures list.Valid() && list.Items == Without(old(list.Items), span) && list.count == old(list.count) - 1
  {
    list.Neighbours(span);
    list.Remove(span);
  }

  /**
   * The end of insert_range's release: the span's chain is cleared and the
   * page heap takes it back.
   */
  method GiveToHeap(span: Span, heap: PageHeap)
    requires heap.Valid() && span in heap.inUse
    modifies span`numPages, span`state, span`sizeClass, span`freelist, span`allocatedCount, span`totalCount, span`next
    modifies heap, heap.pm, heap.pm.root, heap.slab, heap.free`numPages, heap.free`next
    ensures heap.Valid() && heap.inUse == old(heap.inUse) - {span} && heap.free <= old(heap.free) + {span}
  {
    span.freelist := [];
    ghost var m, left, right := heap.DeallocateSpan(span);
    heap.Settled();
  }

  /**
   * inject_span's carving loop: from the last object down to the first,
   * each is put in front of the chain built so far.
   */
  method CarveChain(base: nat, size: nat, n: nat) returns (chain: seq<nat>)
    ensures chain == Carve(base, size, n)
  {
    chain := [];
    var i: nat := n;
    while i > 0
      invariant i <= n
      invariant chain == Carve(base + i * size, size, n - i)
    {
      i := i - 1;
      CarveCons(base + i * size, size, n - i - 1);
      assert base + i * size + size == base + (i + 1) * size;
      chain := [base + i * size] + chain;
    }
  }

  /**
   * The first half of inject_span: the span is given the class and marked in
   * use, and every one of its pages is registered; the page heap's books do
   * not change.
   */
  method PrepareSpan(r: Span, cls: nat, heap: PageHeap)
    requires heap.Valid() && r in heap.inUse
    modifies r`sizeClass, r`state, heap.pm, heap.pm.root
    ensures heap.Valid() && heap.Snapshot() == old(heap.Snapshot())
    ensures r.sizeClass == cls
  {
    heap.Holding(r);
    r.sizeClass := cls;
    r.state := InUse;
    heap.RegisterInUse(r);
  }

  /**
   * inject_span's writes to the span: n objects, none out, chained from the
   * span's first byte; then the span is pushed on the list.
   */
  method Enlist(list: SpanList, r: Span, size: nat, n: nat)
    requires list.Valid() && r !in list.Items
    requires size > 0 && n == r.numPages * PAGE_SIZE / size
    modifies list, list.Items`prev, r`totalCount, r`allocatedCount, r`freelist, r`out, r`prev, r`next
    ensures list.Valid() && list.Items == [r] + old(list.Items)
    ensures RecOf(r) == Fresh(r.sizeClass, r.startPage, r.numPages, size)
  {
    var base := r.StartAddr();
    r.totalCount := n;
    r.allocatedCount := 0;
    var chain := CarveChain(base, size, n);
    r.freelist := chain;
    r.out := {};
    list.HeadListed();
    list.Push(r);
  }

  class CentralFreeList {
    const sizeClass: nat
    /** The spans of this class that have free objects. */
    const nonempty: SpanList
    /** Free objects across the listed spans. */
    var numFree: nat
    /** The spans this list has carved and not given back to the page heap. */
    ghost var spans: set<Span>
    /** The span every object of every span in `spans` belongs to. */
    ghost var owner: map<nat, Span>
    /** What the books say of each span in `spans`. */
    ghost var recs: map<Span, Rec>

    ghost function Snapshot(): View
      reads this, nonempty
    {
      View(sizeClass, nonempty.Items, spans, owner, recs, numFree)
    }

    /** The books agree with the spans. */
    ghost predicate Coupled()
      reads this, spans`sizeClass, spans`startPage, spans`numPages, spans`allocatedCount
      reads spans`totalCount, spans`freelist, spans`out
    {
      CoupledOn(spans, recs)
    }

    /** The invariant, allowing the listed span `ex` to have run dry (inside remove_range). */
    ghost predicate Coherent(ex: Span?)
      reads this, nonempty, nonempty.Items, spans
    {
      && sizeClass < NUM_SIZE_CLASSES
      && nonempty.Valid()
      && Coupled()
      && Fine(Snapshot(), ex)
    }

    /** The invariant between operations. */
    ghost predicate Valid()
      reads this, nonempty, nonempty.Items, spans
    {
      Coherent(null)
    }

    /** The invariant, conjunct by conjunct, for methods that keep it hidden. */
    lemma Unpacked()
      requires Valid()
      ensures sizeClass < NUM_SIZE_CLASSES && nonempty.Valid() && Coupled() && Fine(Snapshot(), null)
    {
    }

    /** The invariant from its conjuncts, the snapshot named w. */
    lemma Packed(w: View)
      requires sizeClass < NUM_SIZE_CLASSES && nonempty.Valid() && CoupledOn(spans, recs)
      requires Snapshot() == w && Fine(w, null)
      ensures Valid()
    {
    }

    /** The list together with the page heap it draws on: its spans are in use there. */
    ghost predicate Linked(heap: PageHeap)
      reads this, nonempty, nonempty.Items, spans
      reads heap, heap.live`startPage, heap.live`numPages, heap.live`state, heap.pm, heap.pm.root, heap.os, heap.slab
    {
      Valid() && heap.Valid() && spans <= heap.inUse
    }

    /** Linked from its parts, for methods that keep it hidden. */
    lemma LinkedFrom(heap: PageHeap)
      requires Valid() && heap.Valid() && spans <= heap.inUse
      ensures Linked(heap)
    {
    }

    /** Linked, part by part, for methods that keep it hidden. */
    lemma LinkedParts(heap: PageHeap)
      requires Linked(heap)
      ensures Valid() && heap.Valid() && spans <= heap.inUse
    {
    }

    /** Every listed span is one the list holds. */
    lemma ListedHeld()
      requires Valid()
      ensures forall t :: t in nonempty.Items ==> t in spans
    {
      Unpacked();
      Parts(Snapshot(), null);
    }

    /** The objects handed out and not yet taken back. */
    ghost function Out(): set<nat>
      reads this, nonempty
    {
      OutOf(Snapshot())
    }

    /** new: an empty list for the class. */
    constructor (cls: nat)
      requires cls < NUM_SIZE_CLASSES
      ensures Valid() && sizeClass == cls && nonempty.Items == [] && numFree == 0
      ensures spans == {} && Out() == {} && fresh(nonempty)
    {
      sizeClass := cls;
      nonempty := new SpanList();
      numFree := 0;
      spans := {};
      owner := map[];
      recs := map[];
    }

    /**
     * An object out with a caller lies in a span of this class, in use in the
     * page heap, and the page map sends the object's page to that span.
     */
    lemma OutMapped(heap: PageHeap, o: nat)
      requires Linked(heap) && o in Out()
      ensures OwnerOf(Snapshot(), o) in spans && OwnerOf(Snapshot(), o) in heap.inUse
      ensures OwnerOf(Snapshot(), o).sizeClass == sizeClass
      ensures heap.pm.Valid() && Lookup(heap.pm.Contents, o / PAGE_SIZE) == OwnerOf(Snapshot(), o)
      ensures heap.pm.Shape() && heap.pm.Get(o / PAGE_SIZE) == OwnerOf(Snapshot(), o)
    {
      var v := Snapshot();
      var s := OwnerOf(v, o);
      Parts(v, null);
      assert Within(v.recs[s], o) && Carved(v.recs[s], sizeClass);
      heap.Holding(s);
    }

    /**
     * One step of remove_range's inner loop: the head of the span's free
     * chain is handed out.
     */
    method TakeHead(span: Span) returns (obj: nat)
      requires Coherent(span) && span in nonempty.Items && span.freelist != []
      modifies this, span`freelist, span`allocatedCount, span`out
      ensures Coherent(span) && old(Snapshot()).numFree >= 1
      ensures Snapshot() == Take(old(Snapshot()), span)
      ensures obj == old(span.freelist[0]) && span.freelist == old(span.freelist[1..])
      ensures obj !in old(Out()) && Out() == old(Out()) + {obj}
    {
      hide Fine, SpanList.Valid, OutOf, CoupledOn;
      ghost var v := Snapshot();
      Parts(v, span);
      CoupledAt(spans, recs, span);
      CoupledLess(spans, recs, span);
      TakeKeeps(v, span);
      obj := PopObject(span);
      CoupledBack(spans, recs, span);
      numFree := numFree - 1;
      recs := Take(v, span).recs;
    }

    /** The head of a non-empty list is a span of the list with a free object. */
    lemma HeadFree()
      requires Valid() && nonempty.Items != []
      ensures nonempty.head == nonempty.Items[0] && nonempty.head in spans && nonempty.head.freelist != []
    {
      var v := Snapshot();
      Parts(v, null);
      nonempty.HeadListed();
      var h := nonempty.Items[0];
      CoupledAt(spans, recs, h);
    }

    /** The span remove_range stopped at still has a free object: it stays listed and the plain invariant holds. */
    lemma Tightened(span: Span)
      requires Coherent(span) && span in nonempty.Items && span.freelist != []
      ensures Valid()
    {
      var v := Snapshot();
      Parts(v, span);
      CoupledAt(spans, recs, span);
      Tighten(v, span);
    }

    /**
     * remove_range's inner loop on one span: objects are taken from the head
     * of its free chain, each put in front of those taken before, until
     * `want` are taken or the chain runs dry.
     */
    method Drain(span: Span, want: nat) returns (got: seq<nat>)
      requires Coherent(span) && span in nonempty.Items
      modifies this, span`freelist, span`allocatedCount, span`out
      ensures Coherent(span) && spans == old(spans)
      ensures |got| <= want && |got| <= |old(span.freelist)| && (|got| == want || span.freelist == [])
      ensures got == Reversed(old(span.freelist)[..|got|]) && span.freelist == old(span.freelist)[|got|..]
      ensures NoDup(got) && Elems(got) !! old(Out()) && Out() == old(Out()) + Elems(got)
    {
      hide Fine, SpanList.Valid, OutOf, CoupledOn;
      ghost var chain := span.freelist;
      got := [];
      while |got| < want && span.freelist != []
        invariant Coherent(span) && span in nonempty.Items && spans == old(spans)
        invariant |got| <= want && |got| <= |chain|
        invariant span.freelist == chain[|got|..] && got == Reversed(chain[..|got|])
        invariant NoDup(got) && Elems(got) !! old(Out()) && Out() == old(Out()) + Elems(got)
        decreases want - |got|
      {
        var obj := TakeHead(span);
        assert chain[..|got| + 1][..|got|] == chain[..|got|];
        NoDupCons(obj, got);
        got := [obj] + got;
      }
    }

    /**
     * One pass of remove_range's outer loop on a non-empty list: the head
     * span is drained, and it leaves the list if it ran dry.
     */
    method TakeFromHead(want: nat, heap: PageHeap) returns (got: seq<nat>)
      requires Linked(heap) && nonempty.Items != [] && want > 0
      modifies this, nonempty, nonempty.Items`prev, nonempty.Items`next
      modifies nonempty.Items`freelist, nonempty.Items`allocatedCount, nonempty.Items`out
      ensures Linked(heap) && spans == old(spans)
      ensures 0 < |got| <= want && |got| <= |old(nonempty.head.freelist)|
      ensures got == Reversed(old(nonempty.head.freelist)[..|got|])
      ensures nonempty.Items == if |got| == |old(nonempty.head.freelist)| then Without(old(nonempty.Items), old(nonempty.head)) else old(nonempty.Items)
      ensures NoDup(got) && Elems(got) !! old(Out()) && Out() == old(Out()) + Elems(got)
    {
      hide Fine, SpanList.Valid, OutOf, CoupledOn, PageHeap.Valid, HeapViews.Good, PageHeap.Coupled, PageMap.Valid;
      HeadFree();
      var span := nonempty.head;
      Relax(Snapshot(), span);
      got := Drain(span, want);
      if span.freelist == [] {
        Unlist(span);
      } else {
        Tightened(span);
      }
    }

    /**
     * One round of remove_range's outer loop: the list is populated if it is
     * empty, then up to `want` objects are taken from the head span. Nothing
     * comes back only when the list is still empty.
     */
    method RemoveRound(want: nat, heap: PageHeap) returns (got: seq<nat>)
      requires Linked(heap) && 1 <= sizeClass && want > 0
      modifies this, nonempty, spans, heap, heap.pm, heap.pm.root, heap.slab, heap.os, heap.slab.freeList, heap.free
      ensures Linked(heap) && |got| <= want && (got == [] ==> nonempty.Items == [])
      ensures old(nonempty.Items) != [] ==> got != []
      ensures NoDup(got) && Elems(got) !! old(Out()) && Out() == old(Out()) + Elems(got)
      ensures forall t :: t in spans ==> t in old(spans) || t in old(heap.free) || t in old(heap.slab.freeList) || fresh(t)
      ensures forall k :: 0 <= k < |heap.slab.freeList| ==> heap.slab.freeList[k] in old(heap.slab.freeList)
      ensures forall t :: t in heap.free ==> t in old(heap.free) || t in old(heap.slab.freeList) || fresh(t)
    {
      hide Fine, SpanList.Valid, OutOf, CoupledOn, PageHeap.Valid, HeapViews.Good, PageHeap.Coupled, PageMap.Valid;
      Parts(Snapshot(), null);
      if nonempty.IsEmpty() {
        ghost var r := Populate(heap);
        if nonempty.IsEmpty() {
          return [];
        }
        Parts(Snapshot(), null);
      }
      got := TakeFromHead(want, heap);
    }

    /**
     * remove_range: up to `batch` objects, the last taken first; the list is
     * populated from the page heap whenever it is empty, and the result is
     * short only when that fails.
     */
    method RemoveRange(batch: nat, heap: PageHeap) returns (count: nat, objs: seq<nat>)
      requires Linked(heap) && 1 <= sizeClass
      modifies this, nonempty, spans, heap, heap.pm, heap.pm.root, heap.slab, heap.os, heap.slab.freeList, heap.free
      ensures Linked(heap) && count == |objs| <= batch
      ensures NoDup(objs) && Elems(objs) !! old(Out()) && Out() == old(Out()) + Elems(objs)
      ensures count < batch ==> nonempty.Items == []
      ensures forall t :: t in spans ==> t in old(spans) || t in old(heap.free) || t in old(heap.slab.freeList) || fresh(t)
      ensures forall t :: t in heap.slab.freeList ==> t in old(heap.slab.freeList)
      ensures forall t :: t in heap.free ==> t in old(heap.free) || t in old(heap.slab.freeList) || fresh(t)
    {
      hide Fine, SpanList.Valid, OutOf, CoupledOn, Valid, Coherent, Linked;
      hide PageHeap.Valid, HeapViews.Good, PageHeap.Coupled, PageMap.Valid;
      count, objs := 0, [];
      while count < batch
        invariant Linked(heap) && count == |objs| <= batch
        invariant NoDup(objs) && Elems(objs) !! old(Out()) && Out() == old(Out()) + Elems(objs)
        invariant forall t :: t in spans ==> t in old(spans) || t in old(heap.free) || t in old(heap.slab.freeList) || fresh(t)
        invariant forall k :: 0 <= k < |heap.slab.freeList| ==> heap.slab.freeList[k] in old(heap.slab.freeList)
        invariant forall t :: t in heap.free ==> t in old(heap.free) || t in old(heap.slab.freeList) || fresh(t)
        decreases batch - count
      {
        var got := RemoveRound(batch - count, heap);
        if got == [] {
          break;
        }
        NoDupJoin(got, objs);
        objs := got + objs;
        count := count + |got|;
      }
    }

    /**
     * remove_range_dropping_lock's first phase: objects are taken from the
     * head span for as long as more are wanted and a span is listed; the page
     * heap is not touched.
     */
    method Collect(want: nat, heap: PageHeap) returns (got: seq<nat>)
      requires Linked(heap)
      modifies this, nonempty, spans`prev, spans`next, spans`freelist, spans`allocatedCount, spans`out
      ensures Linked(heap) && spans == old(spans) && |got| <= want && (|got| < want ==> nonempty.Items == [])
      ensures old(nonempty.Items) != [] && want > 0 ==> got != []
      ensures NoDup(got) && Elems(got) !! old(Out()) && Out() == old(Out()) + Elems(got)
    {
      hide Fine, SpanList.Valid, OutOf, CoupledOn, Valid, Coherent, Linked;
      hide PageHeap.Valid, HeapViews.Good, PageHeap.Coupled, PageMap.Valid;
      got := [];
      LinkedParts(heap);
      Unpacked();
      while |got| < want && !nonempty.IsEmpty()
        invariant Linked(heap) && nonempty.Valid() && spans == old(spans) && |got| <= want
        invariant got == [] ==> nonempty.Items == old(nonempty.Items)
        invariant NoDup(got) && Elems(got) !! old(Out()) && Out() == old(Out()) + Elems(got)
        decreases want - |got|
      {
        LinkedParts(heap);
        Unpacked();
        Parts(Snapshot(), null);
        var more := TakeFromHead(want - |got|, heap);
        NoDupJoin(more, got);
        got := more + got;
        LinkedParts(heap);
        Unpacked();
      }
    }

    /**
     * remove_range_dropping_lock, with the lock drops left out: collect from
     * the listed spans; when that is not enough, take a new span from the
     * page heap and go round again; a page heap out of memory ends the call
     * with what was collected.
     */
    method RemoveRangeDroppingLock(batch: nat, heap: PageHeap) returns (count: nat, objs: seq<nat>)
      requires Linked(heap) && 1 <= sizeClass
      modifies this, nonempty, spans, heap, heap.pm, heap.pm.root, heap.slab, heap.os, heap.slab.freeList, heap.free
      ensures Linked(heap) && count == |objs| <= batch
      ensures NoDup(objs) && Elems(objs) !! old(Out()) && Out() == old(Out()) + Elems(objs)
      ensures count < batch ==> nonempty.Items == []
      ensures old(heap.inUse) <= heap.inUse
      ensures forall t :: t in spans ==> t in old(spans) || t in old(heap.free) || t in old(heap.slab.freeList) || fresh(t)
      ensures forall t :: t in heap.slab.freeList ==> t in old(heap.slab.freeList)
      ensures forall t :: t in heap.free ==> t in old(heap.free) || t in old(heap.slab.freeList) || fresh(t)
    {
      hide Fine, SpanList.Valid, OutOf, CoupledOn, Valid, Coherent, Linked;
      hide PageHeap.Valid, HeapViews.Good, PageHeap.Coupled, PageMap.Valid;
      count, objs := 0, [];
      while true
        invariant Linked(heap) && count == |objs| <= batch
        invariant NoDup(objs) && Elems(objs) !! old(Out()) && Out() == old(Out()) + Elems(objs)
        invariant old(heap.inUse) <= heap.inUse
        invariant forall t :: t in spans ==> t in old(spans) || t in old(heap.free) || t in old(heap.slab.freeList) || fresh(t)
        invariant forall k :: 0 <= k < |heap.slab.freeList| ==> heap.slab.freeList[k] in old(heap.slab.freeList)
        invariant forall t :: t in heap.free ==> t in old(heap.free) || t in old(heap.slab.freeList) || fresh(t)
        decreases batch - count, if nonempty.Items == [] then 1 else 0
      {
        var got := Collect(batch - count, heap);
        NoDupJoin(got, objs);
        objs := got + objs;
        count := count + |got|;
        if count >= batch {
          return;
        }
        ghost var slab0 := heap.slab.freeList;
        assert forall t :: t in slab0 ==> t in old(heap.slab.freeList);
        ghost var r := Populate(heap);
        LinkedParts(heap);
        Unpacked();
        if nonempty.IsEmpty() {
          return;
        }
      }
    }

    /**
     * insert_range, for one object out with a caller: it goes to the head of
     * its span's free chain, and a span that was full is listed again.
     */
    method Give(span: Span, obj: nat)
      requires Valid() && obj in Out() && span == OwnerOf(Snapshot(), obj)
      modifies this, nonempty, nonempty.Items`prev, span`freelist, span`allocatedCount, span`out, span`prev, span`next
      ensures Valid() && spans == old(spans) && span in nonempty.Items
      ensures Snapshot() == Return(old(Snapshot()), span, obj)
      ensures Out() == old(Out()) - {obj}
    {
      hide Fine, SpanList.Valid, OutOf, CoupledOn, Valid, Coherent;
      Unpacked();
      ghost var v := Snapshot();
      ReturnKeeps(v, obj);
      Parts(v, null);
      Listed(v, span);
      CoupledAt(spans, recs, span);
      CoupledLess(spans, recs, span);
      ghost var r := RecOf(span);
      GiveBack(nonempty, span, obj);
      numFree := numFree + 1;
      CoupledBack(spans, recs, span);
      ghost var w := Return(v, span, obj);
      assert w.items == nonempty.Items && w.recs == recs[span := ReturnRec(r, obj)];
      recs := w.recs;
      assert nonempty.Valid() && CoupledOn(spans, recs);
      Packed(w);
    }

    /**
     * insert_range, for a listed span none of whose objects is out: it leaves
     * the list and its objects leave the count of free ones.
     */
    method Drop(span: Span)
      requires Valid() && span in nonempty.Items && span.allocatedCount == 0
      modifies this, nonempty, nonempty.Items`prev, nonempty.Items`next
      ensures Valid() && old(span in recs && numFree >= recs[span].total)
      ensures Snapshot() == Release(old(Snapshot()), span) && Out() == old(Out())
      ensures nonempty.count == old(nonempty.count) - 1
    {
      hide Fine, SpanList.Valid, OutOf, CoupledOn, Valid, Coherent, Release;
      Unpacked();
      ghost var v := Snapshot();
      Parts(v, null);
      CoupledAt(spans, recs, span);
      ReleaseKeeps(v, span);
      ReleaseParts(v, span);
      CoupledLess(spans, recs, span);
      Delist(nonempty, span);
      numFree := numFree - span.totalCount;
      ghost var w := Release(v, span);
      assert w.items == nonempty.Items && w.numFree == numFree;
      spans, recs, owner := w.spans, w.recs, w.owner;
      assert nonempty.Valid() && CoupledOn(spans, recs);
      Packed(w);
    }

    /**
     * insert_range's bookkeeping for one object: the page map gives its
     * span, and an object whose page maps to no span is skipped, leaving
     * the list as it was. Otherwise the object is out with the list and
     * goes back to its span; a span none of whose objects is out any more
     * leaves the list unless it is the only one listed, and is returned
     * (still in use in the page heap) as `idle`.
     */
    method Detach(obj: nat, pm: PageMap) returns (idle: Span?)
      requires Valid() && pm.Shape()
      requires pm.Get(obj / PAGE_SIZE) == null || (obj in Out() && pm.Get(obj / PAGE_SIZE) == OwnerOf(Snapshot(), obj))
      modifies this, nonempty, spans`prev, spans`next, spans`freelist, spans`allocatedCount, spans`out
      ensures Valid()
      ensures pm.Get(obj / PAGE_SIZE) == null ==> idle == null && Snapshot() == old(Snapshot()) && Out() == old(Out()) && spans == old(spans)
      ensures pm.Get(obj / PAGE_SIZE) != null ==> Out() == old(Out()) - {obj} && nonempty.Items != []
      ensures pm.Get(obj / PAGE_SIZE) != null ==> old(Fine(Snapshot(), null)) && Snapshot() == Reclaim(old(Snapshot()), obj)
      ensures idle != null <==> pm.Get(obj / PAGE_SIZE) != null && old(Frees(Snapshot(), obj))
      ensures idle == null ==> spans == old(spans)
      ensures idle != null ==> idle == old(OwnerOf(Snapshot(), obj)) && idle in old(spans) && spans == old(spans) - {idle}
    {
      hide Fine, SpanList.Valid, OutOf, CoupledOn, Valid, Coherent, Return, Release, Reclaim, Frees;
      Unpacked();
      Parts(Snapshot(), null);
      ghost var v0 := Snapshot();
      idle := null;
      var span := pm.Get(obj / PAGE_SIZE);
      if span != null {
        ReclaimBy(v0, obj);
        Give(span, obj);
        Unpacked();
        Parts(Snapshot(), null);
        idle := Settle(span);
      }
    }

    /**
     * The second half of taking an object back: a listed span none of whose
     * objects is out leaves the list when another span stays listed.
     */
    method Settle(span: Span) returns (idle: Span?)
      requires Valid() && span in nonempty.Items
      modifies this, nonempty, nonempty.Items`prev, nonempty.Items`next
      ensures Valid() && Out() == old(Out()) && nonempty.Items != [] && old(span in recs)
      ensures idle != null <==> old(recs[span].alloc == 0 && |nonempty.Items| > 1)
      ensures idle == null ==> Snapshot() == old(Snapshot()) && spans == old(spans)
      ensures idle != null ==> idle == span && old(numFree >= recs[span].total)
      ensures idle != null ==> Snapshot() == Release(old(Snapshot()), span) && spans == old(spans) - {span}
    {
      hide Fine, SpanList.Valid, OutOf, CoupledOn, Valid, Coherent, Return, Release;
      Unpacked();
      ghost var u := Snapshot();
      Parts(u, null);
      CoupledAt(spans, recs, span);
      nonempty.Sized();
      idle := null;
      if span.allocatedCount == 0 && nonempty.count > 1 {
        Drop(span);
        ReleaseParts(u, span);
        Unpacked();
        nonempty.Sized();
        idle := span;
      }
    }

    /** A span the list let go of goes back to the page heap; the list is untouched. */
    method Retire(idle: Span, heap: PageHeap)
      requires Valid() && heap.Valid() && idle in heap.inUse && idle !in spans && spans <= heap.inUse + {idle}
      modifies idle`numPages, idle`state, idle`sizeClass, idle`freelist, idle`allocatedCount, idle`totalCount, idle`next
      modifies heap, heap.pm, heap.pm.root, heap.slab, heap.free`numPages, heap.free`next
      ensures Linked(heap) && heap.inUse == old(heap.inUse) - {idle} && heap.free <= old(heap.free) + {idle}
    {
      hide Fine, SpanList.Valid, OutOf, CoupledOn, Valid, Coherent, Linked;
      hide PageHeap.Valid, HeapViews.Good, PageHeap.Coupled, PageMap.Valid;
      Unpacked();
      Parts(Snapshot(), null);
      heap.Separate();
      assert idle !in nonempty.Items && spans !! heap.free;
      GiveToHeap(idle, heap);
      assert Valid();
      assert heap.Valid();
      assert spans <= heap.inUse;
      LinkedFrom(heap);
    }

    /**
     * insert_range's bookkeeping for one object out with a caller, with the
     * page heap left alone: the span that fell idle, if any, is still in use
     * as far as the page heap knows.
     */
    method Unhook(obj: nat, heap: PageHeap) returns (idle: Span?)
      requires Linked(heap) && obj in Out()
      modifies this, nonempty, spans`prev, spans`next, spans`freelist, spans`allocatedCount, spans`out
      ensures Linked(heap) && Out() == old(Out()) - {obj} && nonempty.Items != []
      ensures old(Fine(Snapshot(), null)) && Snapshot() == Reclaim(old(Snapshot()), obj)
      ensures idle != null <==> old(Frees(Snapshot(), obj))
      ensures idle == null ==> spans == old(spans)
      ensures idle != null ==> idle in old(spans) && spans == old(spans) - {idle} && idle in heap.inUse
    {
      hide Fine, SpanList.Valid, OutOf, CoupledOn, Valid, Coherent, Linked, Reclaim, Frees;
      hide PageHeap.Valid, HeapViews.Good, PageHeap.Coupled, PageMap.Valid;
      OutMapped(heap, obj);
      LinkedParts(heap);
      idle := Detach(obj, heap.pm);
      LinkedFrom(heap);
    }

    /**
     * insert_range, for one object out with a caller: Unhook, and the page
     * heap takes back the span that fell idle.
     */
    method ReturnObject(obj: nat, heap: PageHeap)
      requires Linked(heap) && obj in Out()
      modifies this, nonempty, spans, heap, heap.pm, heap.pm.root, heap.slab, heap.free
      ensures Linked(heap) && Out() == old(Out()) - {obj} && nonempty.Items != []
      ensures old(Fine(Snapshot(), null)) && Snapshot() == Reclaim(old(Snapshot()), obj)
      ensures spans <= old(spans) && heap.inUse == old(heap.inUse) - (old(spans) - spans)
      ensures heap.free <= old(heap.free) + old(spans)
    {
      hide Fine, SpanList.Valid, OutOf, CoupledOn, Valid, Coherent, Linked, Reclaim, Frees;
      hide PageHeap.Valid, HeapViews.Good, PageHeap.Coupled, PageMap.Valid;
      var idle := Unhook(obj, heap);
      if idle != null {
        LinkedParts(heap);
        Retire(idle, heap);
      }
    }

    /**
     * insert_range: the first `count` objects of the chain `batch` (all of
     * it if it is shorter) come back, each to its span; spans none of whose
     * objects is out any more go back to the page heap, but the list is never
     * emptied by it.
     */
    method InsertRange(batch: seq<nat>, count: nat, heap: PageHeap)
      requires Linked(heap) && NoDup(batch) && Elems(batch) <= Out()
      modifies this, nonempty, spans, heap, heap.pm, heap.pm.root, heap.slab, heap.free
      ensures Linked(heap) && Out() == old(Out()) - Elems(batch[..Min(count, |batch|)])
      ensures old(nonempty.Items) != [] || Min(count, |batch|) > 0 ==> nonempty.Items != []
      ensures old(Pending(Snapshot(), batch[..Min(count, |batch|)]))
      ensures Snapshot() == ReclaimAll(old(Snapshot()), batch[..Min(count, |batch|)])
      ensures spans <= old(spans) && heap.inUse == old(heap.inUse) - (old(spans) - spans) && heap.free <= old(heap.free) + old(spans)
    {
      hide Fine, SpanList.Valid, OutOf, CoupledOn, Valid, Coherent, Linked, Pending, Reclaim, ReclaimAll;
      hide PageHeap.Valid, HeapViews.Good, PageHeap.Coupled, PageMap.Valid;
      LinkedParts(heap);
      Unpacked();
      ghost var v0 := Snapshot();
      PendingFrom(v0, batch);
      var i, remaining := 0, count;
      while i < |batch| && remaining > 0
        invariant i <= |batch| && i + remaining == count && i <= Min(count, |batch|)
        invariant Pending(v0, batch[..i]) && Snapshot() == ReclaimAll(v0, batch[..i])
        invariant Linked(heap)
        invariant spans <= old(spans) && heap.inUse == old(heap.inUse) - (old(spans) - spans) && heap.free <= old(heap.free) + old(spans)
      {
        var obj := batch[i];
        assert batch[..i + 1] == batch[..i] + [obj];
        PendingPrefix(v0, batch, i + 1);
        ReclaimAllSnoc(v0, batch[..i], obj);
        ReturnObject(obj, heap);
        i, remaining := i + 1, remaining - 1;
      }
      ReclaimAllKeeps(v0, batch[..i]);
      if i == 0 {
        assert Snapshot() == v0;
      }
    }

    /**
     * insert_range_dropping_lock, with the lock drops left out: the objects
     * come back as in insert_range, but the first MAX_FREED spans that fall
     * idle go back to the page heap only after the whole chain is in.
     */
    method InsertRangeDroppingLock(batch: seq<nat>, count: nat, heap: PageHeap)
      requires Linked(heap) && NoDup(batch) && Elems(batch) <= Out()
      modifies this, nonempty, spans, heap, heap.pm, heap.pm.root, heap.slab, heap.free
      ensures Linked(heap) && Out() == old(Out()) - Elems(batch[..Min(count, |batch|)])
      ensures old(nonempty.Items) != [] || Min(count, |batch|) > 0 ==> nonempty.Items != []
      ensures old(Pending(Snapshot(), batch[..Min(count, |batch|)]))
      ensures Snapshot() == ReclaimAll(old(Snapshot()), batch[..Min(count, |batch|)])
      ensures spans <= old(spans) && heap.inUse == old(heap.inUse) - (old(spans) - spans) && heap.free <= old(heap.free) + old(spans)
    {
      hide Fine, SpanList.Valid, OutOf, CoupledOn, Valid, Coherent, Linked, Pending, Reclaim, ReclaimAll;
      hide PageHeap.Valid, HeapViews.Good, PageHeap.Coupled, PageMap.Valid;
      var freed, numFreed := InsertHolding(batch, count, heap);
      RetireHeld(freed, numFreed, heap);
    }

    /**
     * The first n slots of freed hold distinct spans the list has let go of
     * and the page heap has not yet taken back.
     */
    ghost predicate Holds(freed: array<Span?>, n: nat, heap: PageHeap)
      reads this, freed, heap
    {
      && n <= freed.Length
      && (forall j :: 0 <= j < n ==> freed[j] != null && freed[j] in heap.inUse && freed[j] !in spans)
      && (forall j, k :: 0 <= j < k < n ==> freed[j] != freed[k])
    }

    /** No slot is held yet. */
    lemma HoldsNone(freed: array<Span?>, heap: PageHeap)
      ensures Holds(freed, 0, heap) && Held(freed, 0) == {}
    {
    }

    /** The held spans, as a set: none is listed, all are in use. */
    lemma HeldApart(freed: array<Span?>, n: nat, heap: PageHeap)
      requires Holds(freed, n, heap)
      ensures Held(freed, n) !! spans && Held(freed, n) <= heap.inUse
    {
      forall x | x in Held(freed, n)
        ensures x !in spans && x in heap.inUse
      {
        var j :| 0 <= j < n && freed[..n][j] == x;
      }
    }

    /**
     * insert_range_dropping_lock for one object: Unhook, and a span that
     * fell idle is held back while a slot is free, otherwise the page heap
     * takes it back at once.
     */
    method HoldOne(obj: nat, heap: PageHeap, freed: array<Span?>, n: nat) returns (m: nat)
      requires Linked(heap) && obj in Out() && Holds(freed, n, heap) && freed.Length == MAX_FREED
      modifies this, nonempty, spans, heap, heap.pm, heap.pm.root, heap.slab, heap.free, freed
      ensures Linked(heap) && Holds(freed, m, heap) && n <= m <= MAX_FREED
      ensures Out() == old(Out()) - {obj} && nonempty.Items != []
      ensures old(Fine(Snapshot(), null)) && Snapshot() == Reclaim(old(Snapshot()), obj)
      ensures spans <= old(spans) && heap.free <= old(heap.free) + old(spans)
      ensures old(Held(freed, n)) <= Held(freed, m) <= old(Held(freed, n)) + (old(spans) - spans)
      ensures heap.inUse == old(heap.inUse) - ((old(spans) - spans) - Held(freed, m))
    {
      hide Fine, SpanList.Valid, OutOf, CoupledOn, Valid, Coherent, Linked, Reclaim, Frees;
      hide PageHeap.Valid, HeapViews.Good, PageHeap.Coupled, PageMap.Valid;
      ghost var before := Held(freed, n);
      var idle := Unhook(obj, heap);
      m := n;
      if idle != null {
        if n < MAX_FREED {
          assert idle !in before;
          ghost var cells := freed[..n];
          assert Held(freed, n) == before;
          freed[n] := idle;
          assert freed[..n + 1] == cells + [idle];
          assert Held(freed, n + 1) == before + {idle};
          m := n + 1;
        } else {
          LinkedParts(heap);
          Retire(idle, heap);
        }
      }
    }

    /**
     * insert_range_dropping_lock's first phase: every span that falls idle
     * leaves the list; the first MAX_FREED of them are held back in `freed`,
     * the rest go back to the page heap at once.
     */
    method InsertHolding(batch: seq<nat>, count: nat, heap: PageHeap) returns (freed: array<Span?>, numFreed: nat)
      requires Linked(heap) && NoDup(batch) && Elems(batch) <= Out()
      modifies this, nonempty, spans, heap, heap.pm, heap.pm.root, heap.slab, heap.free
      ensures fresh(freed) && freed.Length == MAX_FREED && numFreed <= MAX_FREED && Holds(freed, numFreed, heap)
      ensures Linked(heap) && Out() == old(Out()) - Elems(batch[..Min(count, |batch|)])
      ensures old(nonempty.Items) != [] || Min(count, |batch|) > 0 ==> nonempty.Items != []
      ensures old(Pending(Snapshot(), batch[..Min(count, |batch|)]))
      ensures Snapshot() == ReclaimAll(old(Snapshot()), batch[..Min(count, |batch|)])
      ensures spans <= old(spans) && Held(freed, numFreed) <= old(spans)
      ensures heap.inUse == old(heap.inUse) - (old(spans) - spans - Held(freed, numFreed))
      ensures heap.free <= old(heap.free) + old(spans)
    {
      hide Fine, SpanList.Valid, OutOf, CoupledOn, Valid, Coherent, Linked, Pending, Reclaim, ReclaimAll, Frees, Holds;
      hide PageHeap.Valid, HeapViews.Good, PageHeap.Coupled, PageMap.Valid;
      freed := new Span?[MAX_FREED](_ => null);
      numFreed := 0;
      HoldsNone(freed, heap);
      LinkedParts(heap);
      Unpacked();
      ghost var v0 := Snapshot();
      PendingFrom(v0, batch);
      var i, remaining := 0, count;
      while i < |batch| && remaining > 0
        invariant i <= |batch| && i + remaining == count && i <= Min(count, |batch|)
        invariant Pending(v0, batch[..i]) && Snapshot() == ReclaimAll(v0, batch[..i])
        invariant Linked(heap) && numFreed <= MAX_FREED && Holds(freed, numFreed, heap)
        invariant spans <= old(spans) && Held(freed, numFreed) <= old(spans)
        invariant heap.inUse == old(heap.inUse) - (old(spans) - spans - Held(freed, numFreed))
        invariant heap.free <= old(heap.free) + old(spans)
      {
        var obj := batch[i];
        assert batch[..i + 1] == batch[..i] + [obj];
        PendingPrefix(v0, batch, i + 1);
        ReclaimAllSnoc(v0, batch[..i], obj);
        HeldApart(freed, numFreed, heap);
        numFreed := HoldOne(obj, heap, freed, numFreed);
        i, remaining := i + 1, remaining - 1;
      }
      ReclaimAllKeeps(v0, batch[..i]);
      if i == 0 {
        assert Snapshot() == v0;
      }
    }

    /** insert_range_dropping_lock's second phase: the held spans go back to the page heap. */
    method RetireHeld(freed: array<Span?>, numFreed: nat, heap: PageHeap)
      requires Linked(heap) && numFreed <= freed.Length
      requires forall j :: 0 <= j < numFreed ==> freed[j] != null && freed[j] in heap.inUse && freed[j] !in spans
      requires forall j, k :: 0 <= j < k < numFreed ==> freed[j] != freed[k]
      modifies Held(freed, numFreed)`numPages, Held(freed, numFreed)`state, Held(freed, numFreed)`sizeClass
      modifies Held(freed, numFreed)`freelist, Held(freed, numFreed)`allocatedCount, Held(freed, numFreed)`totalCount
      modifies Held(freed, numFreed)`next, heap, heap.pm, heap.pm.root, heap.slab, heap.free
      ensures Linked(heap) && heap.inUse == old(heap.inUse) - Held(freed, numFreed)
      ensures heap.free <= old(heap.free) + Held(freed, numFreed)
    {
      hide Fine, SpanList.Valid, OutOf, CoupledOn, Valid, Coherent, Linked;
      hide PageHeap.Valid, HeapViews.Good, PageHeap.Coupled, PageMap.Valid;
      var k := 0;
      while k < numFreed
        invariant k <= numFreed && Linked(heap)
        invariant forall j :: k <= j < numFreed ==> freed[j] in heap.inUse
        invariant heap.inUse == old(heap.inUse) - Held(freed, k)
        invariant heap.free <= old(heap.free) + Held(freed, k)
      {
        LinkedParts(heap);
        Retire(freed[k], heap);
        assert Held(freed, k + 1) == Held(freed, k) + {freed[k]};
        k := k + 1;
      }
    }

    /**
     * Unlisting the span that ran dry in remove_range's inner loop: the
     * plain invariant holds again.
     */
    method Unlist(span: Span)
      requires Coherent(span) && span in nonempty.Items && span.freelist == []
      modifies nonempty, nonempty.Items`prev, nonempty.Items`next
      ensures Valid() && Snapshot() == CentralViews.Unlist(old(Snapshot()), span) && Out() == old(Out())
      ensures nonempty.Items == Without(old(nonempty.Items), span)
    {
      hide Fine, SpanList.Valid, OutOf;
      ghost var v := Snapshot();
      Parts(v, span);
      assert recs[span] == RecOf(span);
      UnlistKeeps(v, span);
      nonempty.Neighbours(span);
      nonempty.Remove(span);
      assert Snapshot() == CentralViews.Unlist(v, span);
    }
  
    /**
     * inject_span: the span is given this class, registered page by page,
     * and carved into as many objects as fit, chained lowest address first;
     * it joins the list at the head.
     */
    method InjectSpan(r: Span, heap: PageHeap)
      requires Linked(heap) && 1 <= sizeClass && r in heap.inUse && r !in spans
      requires ClassInfo(sizeClass).pages <= r.numPages
      modifies this, nonempty, nonempty.Items`prev, r, heap.pm, heap.pm.root
      ensures Linked(heap) && heap.Snapshot() == old(heap.Snapshot())
      ensures Snapshot() == Inject(old(Snapshot()), r, CarvedFor(sizeClass, r.startPage, r.numPages))
      ensures Out() == old(Out()) && r.startPage == old(r.startPage) && r.numPages == old(r.numPages)
    {
      hide Fine, SpanList.Valid, OutOf, Coupled, Valid, PageHeap.Valid, HeapViews.Good, PageHeap.Coupled, PageMap.Valid;
      Unpacked();
      ClassFitsIn(sizeClass, r.numPages);
      heap.Holding(r);
      ApartFrom(heap, r);
      Parts(Snapshot(), null);
      PrepareSpan(r, sizeClass, heap);
      Fill(r);
    }

    /**
     * The second half of inject_span: the span's objects are counted and
     * chained, and the span joins the list.
     */
    method Fill(r: Span)
      requires Valid() && 1 <= sizeClass && r !in spans && r.sizeClass == sizeClass
      requires ClassInfo(sizeClass).size <= r.numPages * PAGE_SIZE
      requires Apart(Snapshot(), CarvedFor(sizeClass, r.startPage, r.numPages))
      modifies this, nonempty, nonempty.Items`prev, r`totalCount, r`allocatedCount, r`freelist, r`out, r`prev, r`next
      ensures Valid() && Out() == old(Out())
      ensures Snapshot() == Inject(old(Snapshot()), r, CarvedFor(sizeClass, r.startPage, r.numPages))
    {
      hide Fine, SpanList.Valid, OutOf, CoupledOn, Valid, Coherent;
      Unpacked();
      var size := ClassInfo(sizeClass).size;
      ObjectsPerSpanPositive(sizeClass);
      ghost var v := Snapshot();
      Parts(v, null);
      var fr := Fresh(sizeClass, r.startPage, r.numPages, size);
      InjectKeeps(v, r, r.startPage, r.numPages, size);
      var n := r.numPages * PAGE_SIZE / size;
      Enlist(nonempty, r, size, n);
      CoupledMore(spans, recs, r);
      ghost var w := Inject(v, r, fr);
      assert w.spans == spans + {r} && w.recs == recs[r := RecOf(r)];
      numFree, spans, recs, owner := numFree + n, w.spans, w.recs, w.owner;
      Packed(w);
    }

    /** The pages of a span in use in the heap and not yet this list's lie apart from all of this list's spans. */
    lemma ApartFrom(heap: PageHeap, r: Span)
      requires Linked(heap) && r in heap.inUse && r !in spans
      ensures forall x: Rec :: x.start == r.startPage && x.pages == r.numPages ==> Apart(Snapshot(), x)
    {
      var v := Snapshot();
      Parts(v, null);
      forall t | t in v.recs
        ensures v.recs[t].start + v.recs[t].pages <= r.startPage || r.startPage + r.numPages <= v.recs[t].start
      {
        assert recs[t] == RecOf(t);
        heap.HeldApart(t, r);
      }
    }

    /**
     * populate: a span of the class's page count from the page heap, carved
     * into the list; nothing changes here when the page heap has none.
     */
    method Populate(heap: PageHeap) returns (ghost r: Span?)
      requires Linked(heap) && 1 <= sizeClass
      modifies this, nonempty, nonempty.Items`prev
      modifies heap, heap.pm, heap.pm.root, heap.slab, heap.os, heap.slab.freeList, heap.free
      ensures Linked(heap) && Out() == old(Out())
      ensures r == null ==> Snapshot() == old(Snapshot())
      ensures r != null ==> r.numPages >= ClassInfo(sizeClass).pages
      ensures r != null ==> Snapshot() == Inject(old(Snapshot()), r, CarvedFor(sizeClass, r.startPage, r.numPages))
      ensures r != null ==> r in old(heap.free) || r in old(heap.slab.freeList) || fresh(r)
      ensures old(heap.inUse) <= heap.inUse
      ensures forall t :: t in heap.slab.freeList ==> t in old(heap.slab.freeList)
      ensures forall t :: t in heap.free ==> t in old(heap.free) || t in old(heap.slab.freeList) || fresh(t)
    {
      hide Fine, SpanList.Valid, OutOf, Coupled, Valid, PageHeap.Valid, HeapViews.Good, PageHeap.Coupled, PageMap.Valid;
      Unpacked();
      var pages := ClassInfo(sizeClass).pages;
      ObjectsPerSpanPositive(sizeClass);
      heap.Separate();
      Parts(Snapshot(), null);
      ghost var cfl := Snapshot();
      var span, _ := heap.AllocateSpan(pages);
      r := span;
      assert Snapshot() == cfl;
      heap.Settled();
      if span == null {
        return;
      }
      heap.Holding(span);
      InjectSpan(span, heap);
    }
  }

  /** One central free list per size class, each behind its own lock in the allocator. */
  class CentralCache {
    const lists: seq<CentralFreeList>
    /** The span lists of all classes. */
    ghost const fronts: set<SpanList>
    /** Every span any list holds. */
    ghost var Repr: set<Span>

    /** A list per class, serving that class; no two classes share a list or its span list. */
    ghost predicate Valid()
    {
      && |lists| == NUM_SIZE_CLASSES
      && (forall c :: 0 <= c < |lists| ==> lists[c].sizeClass == c)
      && (forall c, d :: 0 <= c < d < |lists| ==> lists[c] != lists[d] && lists[c].nonempty != lists[d].nonempty)
      && fronts == set l | l in lists :: l.nonempty
    }

    /** new: list i is built for class i, class 0 included, and every list starts empty. */
    constructor ()
      ensures Valid()
      ensures forall c :: 0 <= c < |lists| ==> fresh(lists[c]) && fresh(lists[c].nonempty)
      ensures forall c :: 0 <= c < |lists| ==> lists[c].Valid() && lists[c].spans == {} && lists[c].Out() == {}
      ensures Empty()
    {
      hide CentralFreeList.Valid, CentralFreeList.Out;
      var made: seq<CentralFreeList> := [];
      var i := 0;
      while i < NUM_SIZE_CLASSES
        invariant i == |made| <= NUM_SIZE_CLASSES
        invariant forall c :: 0 <= c < i ==> made[c].sizeClass == c && fresh(made[c]) && fresh(made[c].nonempty)
        invariant forall c :: 0 <= c < i ==> made[c].Valid() && made[c].spans == {} && made[c].Out() == {}
        invariant forall c :: 0 <= c < i ==> made[c].nonempty.Items == []
        invariant forall c, d :: 0 <= c < d < i ==> made[c] != made[d] && made[c].nonempty != made[d].nonempty
      {
        var list := new CentralFreeList(i);
        made := made + [list];
        i := i + 1;
      }
      lists := made;
      fronts := set l | l in made :: l.nonempty;
      Repr := {};
    }

    /** get: the list of the given class. */
    function Get(c: nat): (l: CentralFreeList)
      requires Valid() && c < NUM_SIZE_CLASSES
      ensures l.sizeClass == c && l in lists
    {
      lists[c]
    }

    /** Every list holds no span yet. */
    ghost predicate Empty()
      reads this, lists, fronts, Repr
    {
      && Valid()
      && (forall c :: 0 <= c < |lists| ==> lists[c].spans == {} && lists[c].nonempty.Items == [] && lists[c].Valid())
    }

    /** Lists that hold nothing serve any page heap in good order. */
    lemma EmptyServes(heap: PageHeap)
      requires Empty() && heap.Valid()
      ensures Serves(heap)
    {
    }

    ghost predicate Serves(heap: PageHeap)
      reads this, lists, fronts, Repr
      reads heap, heap.live`startPage, heap.live`numPages, heap.live`state, heap.pm, heap.pm.root, heap.os, heap.slab
    {
      && Valid()
      && (forall c :: 0 <= c < |lists| ==> lists[c].spans <= Repr)
      && (forall c, t :: 0 <= c < |lists| && t in lists[c].nonempty.Items ==> t in Repr)
      && (forall c :: 0 <= c < |lists| ==> lists[c].Linked(heap))
      && (forall c, d :: 0 <= c < d < |lists| ==> lists[c].spans !! lists[d].spans)
    }

    /** Serves, conjunct by conjunct, for methods that keep it hidden. */
    lemma ServesParts(heap: PageHeap)
      requires Serves(heap)
      ensures Valid()
      ensures forall c :: 0 <= c < |lists| ==> lists[c].Linked(heap) && lists[c].spans <= Repr
      ensures forall c, d :: 0 <= c < d < |lists| ==> lists[c].spans !! lists[d].spans
    {
    }

    /** Serves from its conjuncts, every list's listed spans being among its spans. */
    lemma ServesFrom(heap: PageHeap)
      requires Valid()
      requires forall c :: 0 <= c < |lists| ==> lists[c].Linked(heap) && lists[c].spans <= Repr
      requires forall c, d :: 0 <= c < d < |lists| ==> lists[c].spans !! lists[d].spans
      ensures Serves(heap)
    {
      forall c, t | 0 <= c < |lists| && t in lists[c].nonempty.Items
        ensures t in Repr
      {
        lists[c].LinkedParts(heap);
        lists[c].ListedHeld();
      }
    }

    /**
     * remove_range_dropping_lock on the list of class c: the other classes'
     * lists keep their invariant and their spans.
     */
    method Remove(c: nat, batch: nat, heap: PageHeap) returns (count: nat, objs: seq<nat>)
      requires Serves(heap) && 1 <= c < NUM_SIZE_CLASSES
      modifies this, Get(c), Get(c).nonempty, Get(c).spans
      modifies heap, heap.pm, heap.pm.root, heap.slab, heap.os, heap.slab.freeList, heap.free
      ensures Serves(heap) && count == |objs| <= batch
      ensures NoDup(objs) && Elems(objs) !! old(Get(c).Out()) && Get(c).Out() == old(Get(c).Out()) + Elems(objs)
      ensures count < batch ==> Get(c).nonempty.Items == []
    {
      hide Fine, SpanList.Valid, OutOf, CoupledOn, CentralFreeList.Valid, CentralFreeList.Linked, Serves;
      hide PageHeap.Valid, HeapViews.Good, PageHeap.Coupled, PageMap.Valid;
      ServesParts(heap);
      var list := Get(c);
      list.LinkedParts(heap);
      heap.Separate();
      forall d | 0 <= d < |lists| && d != c
        ensures lists[d].Valid() && lists[d].spans <= heap.inUse && lists[d].spans !! list.spans
        ensures forall t :: t in lists[d].nonempty.Items ==> t in lists[d].spans
      {
        GetApart(c, d);
        lists[d].LinkedParts(heap);
        lists[d].ListedHeld();
      }
      count, objs := list.RemoveRangeDroppingLock(batch, heap);
      list.LinkedParts(heap);
      list.ListedHeld();
      Repr := Repr + list.spans;
      forall d | 0 <= d < |lists| && d != c
        ensures lists[d].Linked(heap) && lists[d].spans !! list.spans
      {
        GetApart(c, d);
        lists[d].LinkedFrom(heap);
      }
      ServesFrom(heap);
    }

    /**
     * insert_range_dropping_lock on the list of class c: the other classes'
     * lists keep their invariant and their spans.
     */
    method Insert(c: nat, batch: seq<nat>, count: nat, heap: PageHeap)
      requires Serves(heap) && 1 <= c < NUM_SIZE_CLASSES
      requires NoDup(batch) && Elems(batch) <= Get(c).Out()
      modifies Get(c), Get(c).nonempty, Get(c).spans, heap, heap.pm, heap.pm.root, heap.slab, heap.free
      ensures Serves(heap) && Get(c).Out() == old(Get(c).Out()) - Elems(batch[..Min(count, |batch|)])
      ensures heap.free <= old(heap.free) + Repr
      ensures old(Pending(Get(c).Snapshot(), batch[..Min(count, |batch|)]))
      ensures Get(c).Snapshot() == ReclaimAll(old(Get(c).Snapshot()), batch[..Min(count, |batch|)])
    {
      hide Fine, SpanList.Valid, OutOf, CoupledOn, CentralFreeList.Valid, CentralFreeList.Linked, Serves, Pending, ReclaimAll;
      hide PageHeap.Valid, HeapViews.Good, PageHeap.Coupled, PageMap.Valid;
      ServesParts(heap);
      var list := Get(c);
      list.LinkedParts(heap);
      heap.Separate();
      forall d | 0 <= d < |lists| && d != c
        ensures lists[d].Valid() && lists[d].spans <= heap.inUse && lists[d].spans !! list.spans
        ensures forall t :: t in lists[d].nonempty.Items ==> t in lists[d].spans
      {
        GetApart(c, d);
        lists[d].LinkedParts(heap);
        lists[d].ListedHeld();
      }
      list.InsertRangeDroppingLock(batch, count, heap);
      list.LinkedParts(heap);
      forall d | 0 <= d < |lists| && d != c
        ensures lists[d].Linked(heap) && lists[d].spans !! list.spans
      {
        GetApart(c, d);
        lists[d].LinkedFrom(heap);
      }
      ServesFrom(heap);
    }

    /** Two classes never share a list, so work on one leaves the other's list alone. */
    lemma GetApart(c: nat, d: nat)
      requires Valid() && c < NUM_SIZE_CLASSES && d < NUM_SIZE_CLASSES && c != d
      ensures Get(c) != Get(d) && Get(c).nonempty != Get(d).nonempty
    {
      if c > d {
        GetApart(d, c);
      }
    }
  }
}
