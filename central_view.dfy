/**
 * The central free list's bookkeeping as a value, with the transitions its
 * operations make and proofs that each keeps the list's invariant `Fine`.
 *
 * A span carved for the list is described by a `Rec`: its class, its pages,
 * its counts, its free chain and (ghost bookkeeping) the objects of it that
 * are out with callers. `owner` says which span each object belongs to.
 */
module CentralViews {
  import opened Config
  import opened Spans

  /** What the list knows of one of its spans. */
  datatype Rec = Rec(cls: nat, start: nat, pages: nat, alloc: nat, total: nat, free: seq<nat>, out: set<nat>)

  datatype View = View(
    cls: nat,
    items: seq<Span>,
    spans: set<Span>,
    owner: map<nat, Span>,
    recs: map<Span, Rec>,
    numFree: nat)

  /** No object occurs twice. */
  predicate NoDup(xs: seq<nat>)
  {
    forall i, j :: 0 <= i < j < |xs| ==> xs[i] != xs[j]
  }

  /** Object address o lies in one of the pages of the span r describes. */
  predicate Within(r: Rec, o: nat)
  {
    r.start <= o / PAGE_SIZE < r.start + r.pages
  }

  /** The n objects of `size` bytes laid out from `base`, lowest address first. */
  function Carve(base: nat, size: nat, n: nat): seq<nat>
  {
    seq(n, k => base + k * size)
  }

  /** The sum of a sequence of counts. */
  function Sum(xs: seq<nat>): nat
  {
    if xs == [] then 0 else xs[0] + Sum(xs[1..])
  }

  /** The free-chain length of each listed span, in list order. */
  function Counts(items: seq<Span>, recs: map<Span, Rec>): (cs: seq<nat>)
    ensures |cs| == |items|
    ensures forall i :: 0 <= i < |items| && items[i] in recs ==> cs[i] == |recs[items[i]].free|
  {
    seq(|items|, i requires 0 <= i < |items| => if items[i] in recs then |recs[items[i]].free| else 0)
  }

  /**
   * A span carved for class cls: the objects out are counted by alloc, free
   * plus out make total, and no object is both free and out, or free twice.
   */
  predicate Carved(r: Rec, cls: nat)
  {
    && r.cls == cls
    && r.alloc == |r.out|
    && r.alloc + |r.free| == r.total
    && NoDup(r.free)
    && forall o :: o in r.free ==> o !in r.out
  }

  /** Every span of the list has a record, and is carved for the class. */
  ghost predicate Records(v: View)
  {
    && v.spans == v.recs.Keys
    && (forall s :: s in v.spans ==> Carved(v.recs[s], v.cls))
  }

  /** The listed spans are distinct spans of the list, listed exactly when they have a free object (or are `ex`). */
  ghost predicate Listing(v: View, ex: Span?)
    requires Records(v)
  {
    && (forall s :: s in v.items ==> s in v.spans)
    && Distinct(v.items)
    && (forall s :: s in v.spans ==> (s in v.items <==> v.recs[s].free != [] || s == ex))
  }

  /**
   * Every object belongs to one span of the list and lies in its pages; an
   * object free or out in a span belongs to that span.
   */
  ghost predicate Owned(v: View)
    requires Records(v)
  {
    OwnersHold(v) && Claims(v)
  }

  ghost predicate OwnersHold(v: View)
    requires Records(v)
  {
    forall o :: o in v.owner ==> v.owner[o] in v.spans && Within(v.recs[v.owner[o]], o)
  }

  /** Every free object and every object out of the span s belongs to s. */
  ghost predicate Claimed(owner: map<nat, Span>, s: Span, r: Rec)
  {
    && (forall o :: o in r.free ==> o in owner && owner[o] == s)
    && (forall o :: o in r.out ==> o in owner && owner[o] == s)
  }

  ghost predicate Claims(v: View)
    requires Records(v)
  {
    forall s :: s in v.spans ==> Claimed(v.owner, s, v.recs[s])
  }

  /**
   * The list's invariant, allowing one span `ex` that is listed although its
   * free chain ran dry (inside remove_range, before it is unlisted); numFree
   * counts the free objects of the listed spans.
   */
  ghost predicate Fine(v: View, ex: Span?)
  {
    && Records(v)
    && Listing(v, ex)
    && Owned(v)
    && v.numFree == Sum(Counts(v.items, v.recs))
  }

  /** The objects handed out and not yet taken back. */
  function OutOf(v: View): set<nat>
  {
    set o | o in v.owner && v.owner[o] in v.recs && o in v.recs[v.owner[o]].out
  }

  // ---- Sums ----

  /** Changing one count changes the sum by the difference. */
  lemma {:induction false} SumUpdate(xs: seq<nat>, j: nat, v: nat)
    requires j < |xs|
    ensures Sum(xs[j := v]) + xs[j] == Sum(xs) + v
  {
    if j == 0 {
      assert xs[j := v][1..] == xs[1..];
    } else {
      assert xs[j := v][1..] == xs[1..][j - 1 := v];
      SumUpdate(xs[1..], j - 1, v);
    }
  }

  /** Dropping one count lowers the sum by that count. */
  lemma {:induction false} SumRemove(xs: seq<nat>, j: nat)
    requires j < |xs|
    ensures Sum(xs[..j] + xs[j + 1..]) + xs[j] == Sum(xs)
  {
    if j == 0 {
      assert xs[..j] + xs[j + 1..] == xs[1..];
    } else {
      assert (xs[..j] + xs[j + 1..])[1..] == xs[1..][..j - 1] + xs[1..][j..];
      SumRemove(xs[1..], j - 1);
    }
  }

  /** The counts of a list without the span at index j are the counts without index j. */
  lemma CountsWithout(items: seq<Span>, recs: map<Span, Rec>, s: Span)
    requires s in items && Distinct(items) && forall t :: t in items ==> t in recs
    ensures Sum(Counts(Without(items, s), recs)) + |recs[s].free| == Sum(Counts(items, recs))
  {
    var j := IndexOf(items, s);
    var cs := Counts(items, recs);
    assert Counts(Without(items, s), recs) == cs[..j] + cs[j + 1..];
    SumRemove(cs, j);
  }

  /** A span's free chain changing changes the counts at its one position. */
  lemma CountsUpdate(items: seq<Span>, recs: map<Span, Rec>, s: Span, r: Rec)
    requires s in items && Distinct(items) && forall t :: t in items ==> t in recs
    ensures Sum(Counts(items, recs[s := r])) + |recs[s].free| == Sum(Counts(items, recs)) + |r.free|
  {
    var j := IndexOf(items, s);
    var cs := Counts(items, recs);
    assert Counts(items, recs[s := r]) == cs[j := |r.free|];
    SumUpdate(cs, j, |r.free|);
  }

  /** A span's record changing leaves the counts alone when it is not listed. */
  lemma CountsUnlisted(items: seq<Span>, recs: map<Span, Rec>, s: Span, r: Rec)
    requires s !in items
    ensures Counts(items, recs[s := r]) == Counts(items, recs)
  {
  }

  // ---- Carving ----

  /** The k-th carved object lies in the span's pages when k + 1 objects of `size` bytes fit in them. */
  lemma {:induction false} CarvedWithin(start: nat, pages: nat, size: nat, k: nat)
    requires size > 0 && (k + 1) * size <= pages * PAGE_SIZE
    ensures start <= (start * PAGE_SIZE + k * size) / PAGE_SIZE < start + pages
  {
    var off := k * size;
    assert off < pages * PAGE_SIZE;
    var q := off / PAGE_SIZE;
    assert q * PAGE_SIZE <= off;
    assert start * PAGE_SIZE + off == (start + q) * PAGE_SIZE + off % PAGE_SIZE;
  }

  /** Carving n + 1 objects is carving the first and then n from the next address. */
  lemma CarveCons(base: nat, size: nat, n: nat)
    ensures Carve(base, size, n + 1) == [base] + Carve(base + size, size, n)
  {
    var a, b := Carve(base, size, n + 1), [base] + Carve(base + size, size, n);
    forall k | 0 <= k < |a|
      ensures a[k] == b[k]
    {
      if k > 0 {
        assert (k - 1) * size + size == k * size;
      }
    }
  }

  /** Carved objects are strictly increasing, so none occurs twice. */
  lemma CarveNoDup(base: nat, size: nat, n: nat)
    requires size > 0
    ensures NoDup(Carve(base, size, n))
  {
    var xs := Carve(base, size, n);
    forall i, j | 0 <= i < j < n
      ensures xs[i] != xs[j]
    {
      assert i * size < j * size;
    }
  }

  // ---- Transitions ----

  /** A span's books after it hands out the head of its free chain. */
  function TakeRec(r: Rec): Rec
    requires r.free != []
  {
    r.(alloc := r.alloc + 1, free := r.free[1..], out := r.out + {r.free[0]})
  }

  /** A span hands out the head of its free chain. */
  function Take(v: View, s: Span): (w: View)
    requires s in v.recs && v.recs[s].free != [] && v.numFree >= 1
  {
    v.(recs := v.recs[s := TakeRec(v.recs[s])], numFree := v.numFree - 1)
  }

  /** A span with a free object may stand as the exception: it is listed anyway. */
  lemma Relax(v: View, s: Span)
    requires Fine(v, null) && s in v.items
    ensures Fine(v, s)
  {
  }

  /** Between operations a span of the list is listed exactly when it has a free object. */
  lemma Listed(v: View, s: Span)
    requires Fine(v, null) && s in v.spans
    ensures s in v.items <==> v.recs[s].free != []
  {
  }

  /** The parts of the invariant the transitions lean on. */
  lemma Parts(v: View, ex: Span?)
    requires Fine(v, ex)
    ensures v.spans == v.recs.Keys
    ensures forall t :: t in v.items ==> t in v.spans && t in v.recs
    ensures Distinct(v.items) && OwnersHold(v) && Claims(v)
  {
  }

  /** A listed span that still has a free object is no exception. */
  lemma Tighten(v: View, s: Span)
    requires Fine(v, s) && s in v.recs && v.recs[s].free != []
    ensures Fine(v, null)
  {
  }

  /** A listed span with a free object means a free object is counted. */
  lemma Counted(v: View, s: Span)
    requires Fine(v, s) && s in v.items && v.recs[s].free != []
    ensures v.numFree >= |v.recs[s].free| >= 1
  {
    CountsWithout(v.items, v.recs, s);
  }

  /**
   * Handing out the head object keeps the invariant; the object was not out
   * before and is out afterwards, and nothing else changes hands.
   */
  lemma TakeKeeps(v: View, s: Span)
    requires Fine(v, s) && s in v.items && v.recs[s].free != []
    ensures v.numFree >= 1 && Fine(Take(v, s), s)
    ensures v.recs[s].free[0] !in OutOf(v) && OutOf(Take(v, s)) == OutOf(v) + {v.recs[s].free[0]}
  {
    hide Listing, Owned, Carved;
    Parts(v, s);
    Counted(v, s);
    var w := Take(v, s);
    CountsUpdate(v.items, v.recs, s, w.recs[s]);
    TakeRecords(v, s);
    TakeListing(v, s);
    TakeOwned(v, s);
    TakeOut(v, s);
  }

  lemma TakeListing(v: View, s: Span)
    requires Records(v) && Listing(v, s) && s in v.spans && v.recs[s].free != [] && v.numFree >= 1
    requires Records(Take(v, s))
    ensures Listing(Take(v, s), s)
  {
  }

  lemma TakeOwned(v: View, s: Span)
    requires Records(v) && Owned(v) && s in v.spans && v.recs[s].free != [] && v.numFree >= 1
    requires Records(Take(v, s))
    ensures Owned(Take(v, s))
  {
    TakeOwnersHold(v, s);
    TakeClaims(v, s);
  }

  lemma TakeRecords(v: View, s: Span)
    requires Records(v) && s in v.spans && v.recs[s].free != [] && v.numFree >= 1
    ensures Records(Take(v, s))
  {
    var w := Take(v, s);
    var r := v.recs[s];
    var obj := r.free[0];
    assert obj in r.free;
    assert obj !in r.free[1..] by {
      forall k | 1 <= k < |r.free|
        ensures r.free[k] != obj
      {
      }
    }
    assert Carved(w.recs[s], w.cls);
  }

  lemma TakeOwnersHold(v: View, s: Span)
    requires Records(v) && OwnersHold(v) && s in v.spans && v.recs[s].free != [] && v.numFree >= 1
    requires Records(Take(v, s))
    ensures OwnersHold(Take(v, s))
  {
    var w := Take(v, s);
    assert forall t :: t in w.spans ==> w.recs[t].start == v.recs[t].start && w.recs[t].pages == v.recs[t].pages;
  }

  lemma TakeClaims(v: View, s: Span)
    requires Records(v) && Claims(v) && s in v.spans && v.recs[s].free != [] && v.numFree >= 1
    requires Records(Take(v, s))
    ensures Claims(Take(v, s))
  {
    var w := Take(v, s);
    var r := v.recs[s];
    assert Claimed(v.owner, s, r);
    assert r.free[0] in r.free;
    assert Claimed(w.owner, s, w.recs[s]) by {
      forall o | o in w.recs[s].free
        ensures o in r.free
      {
      }
    }
    forall t | t in w.spans
      ensures Claimed(w.owner, t, w.recs[t])
    {
      if t != s {
        assert w.recs[t] == v.recs[t];
      }
    }
  }

  lemma TakeOut(v: View, s: Span)
    requires Records(v) && Claims(v) && s in v.spans && v.recs[s].free != [] && v.numFree >= 1
    ensures v.recs[s].free[0] !in OutOf(v) && OutOf(Take(v, s)) == OutOf(v) + {v.recs[s].free[0]}
  {
    var w := Take(v, s);
    var r := v.recs[s];
    var obj := r.free[0];
    assert obj in r.free && Carved(r, v.cls);
    assert v.owner[obj] == s;
    assert obj !in r.out;
    forall o | o in OutOf(w)
      ensures o in OutOf(v) || o == obj
    {
    }
    forall o | o in OutOf(v)
      ensures o in OutOf(w)
    {
    }
  }

  /** A listed span whose free chain ran dry leaves the list. */
  function Unlist(v: View, s: Span): View
  {
    v.(items := Without(v.items, s))
  }

  /** Unlisting the exhausted exception restores the plain invariant; nothing changes hands. */
  lemma UnlistKeeps(v: View, s: Span)
    requires Fine(v, s) && s in v.items && v.recs[s].free == []
    ensures Fine(Unlist(v, s), null) && OutOf(Unlist(v, s)) == OutOf(v)
  {
    hide Owned, Carved;
    Parts(v, s);
    CountsWithout(v.items, v.recs, s);
    UnlistListing(v, s);
    UnlistOwned(v, s);
  }

  lemma UnlistOwned(v: View, s: Span)
    requires Records(v) && Owned(v)
    ensures Records(Unlist(v, s)) && Owned(Unlist(v, s))
  {
  }

  lemma UnlistListing(v: View, s: Span)
    requires Records(v) && Listing(v, s) && s in v.items && v.recs[s].free == []
    ensures Listing(Unlist(v, s), null)
  {
    var w := Unlist(v, s);
    var j := IndexOf(v.items, s);
    WithoutAt(v.items, j);
    forall t | t in v.items
      ensures t in w.items <==> t != s
    {
      var k := IndexOf(v.items, t);
      if t != s {
        assert w.items[if k < j then k else k - 1] == t;
      }
    }
    forall t | t in w.items
      ensures t in v.items
    {
      var k :| 0 <= k < |w.items| && w.items[k] == t;
      assert v.items[if k < j then k else k + 1] == t;
    }
  }

  // ---- Carving a new span ----

  /** The record of a span of `pages` pages from `start`, freshly carved into objects of `size` bytes. */
  function Fresh(cls: nat, start: nat, pages: nat, size: nat): (r: Rec)
    requires size > 0
    ensures |r.free| == r.total == pages * PAGE_SIZE / size && r.alloc == 0 && r.out == {}
  {
    var n := pages * PAGE_SIZE / size;
    Rec(cls, start, pages, 0, n, Carve(start * PAGE_SIZE, size, n), {})
  }

  /** Every carved object lies in the span's pages, and none occurs twice. */
  lemma FreshCarved(cls: nat, start: nat, pages: nat, size: nat)
    requires size > 0
    ensures Carved(Fresh(cls, start, pages, size), cls)
    ensures forall o :: o in Fresh(cls, start, pages, size).free ==> Within(Fresh(cls, start, pages, size), o)
    ensures size <= pages * PAGE_SIZE ==> Fresh(cls, start, pages, size).free != []
  {
    var r := Fresh(cls, start, pages, size);
    var n := r.total;
    CarveNoDup(start * PAGE_SIZE, size, n);
    forall o | o in r.free
      ensures Within(r, o)
    {
      var k :| 0 <= k < n && r.free[k] == o;
      assert (k + 1) * size <= n * size;
      CarvedWithin(start, pages, size, k);
    }
    if size <= pages * PAGE_SIZE {
      assert 1 <= n by {
        assert pages * PAGE_SIZE / size >= size / size;
      }
    }
  }

  /** A freshly carved span joins the list at its head, its objects owned by it. */
  function Inject(v: View, s: Span, r: Rec): View
  {
    v.(items := [s] + v.items, spans := v.spans + {s}, recs := v.recs[s := r],
       owner := v.owner + (map o | o in r.free :: s), numFree := v.numFree + |r.free|)
  }

  /** The pages of r lie apart from those of every span of the list. */
  ghost predicate Apart(v: View, r: Rec)
  {
    forall t :: t in v.recs ==> v.recs[t].start + v.recs[t].pages <= r.start || r.start + r.pages <= v.recs[t].start
  }

  /**
   * Injecting a span whose pages lie apart from those of the list's spans
   * keeps the invariant, and hands nothing out.
   */
  lemma InjectKeeps(v: View, s: Span, start: nat, pages: nat, size: nat)
    requires Fine(v, null) && s !in v.recs && 0 < size <= pages * PAGE_SIZE
    requires Apart(v, Fresh(v.cls, start, pages, size))
    ensures Fine(Inject(v, s, Fresh(v.cls, start, pages, size)), null)
    ensures OutOf(Inject(v, s, Fresh(v.cls, start, pages, size))) == OutOf(v)
  {
    hide Listing, Owned, Carved, Records, OutOf, Counts, Sum;
    var r := Fresh(v.cls, start, pages, size);
    Parts(v, null);
    FreshCarved(v.cls, start, pages, size);
    FreshUnowned(v, r);
    InjectRecords(v, s, r);
    InjectListing(v, s, r);
    InjectOwned(v, s, r);
    InjectOut(v, s, r);
    InjectSum(v, s, r);
  }

  lemma InjectSum(v: View, s: Span, r: Rec)
    requires s !in v.items && v.numFree == Sum(Counts(v.items, v.recs))
    ensures var w := Inject(v, s, r); w.numFree == Sum(Counts(w.items, w.recs))
  {
    var w := Inject(v, s, r);
    CountsUnlisted(v.items, v.recs, s, r);
    assert Counts(w.items, w.recs) == [|r.free|] + Counts(v.items, w.recs);
  }

  lemma InjectRecords(v: View, s: Span, r: Rec)
    requires Records(v) && s !in v.recs && Carved(r, v.cls)
    ensures Records(Inject(v, s, r))
  {
  }

  lemma InjectListing(v: View, s: Span, r: Rec)
    requires Records(v) && Listing(v, null) && s !in v.recs && r.free != []
    requires Records(Inject(v, s, r))
    ensures Listing(Inject(v, s, r), null)
  {
    DistinctCons(s, v.items);
  }

  /** Objects of a span lying apart from the list's spans are owned by none of them. */
  lemma FreshUnowned(v: View, r: Rec)
    requires Records(v) && OwnersHold(v) && Apart(v, r)
    requires forall o :: o in r.free ==> Within(r, o)
    ensures forall o :: o in v.owner ==> o !in r.free
  {
    forall o | o in v.owner
      ensures !Within(r, o)
    {
      assert Within(v.recs[v.owner[o]], o);
    }
  }

  lemma InjectOwned(v: View, s: Span, r: Rec)
    requires Records(v) && Owned(v) && s !in v.recs
    requires forall o :: o in v.owner ==> o !in r.free
    requires forall o :: o in r.free ==> Within(r, o)
    requires r.out == {} && Records(Inject(v, s, r))
    ensures Owned(Inject(v, s, r))
  {
    InjectOwnersHold(v, s, r);
    InjectClaims(v, s, r);
  }

  lemma InjectOwnersHold(v: View, s: Span, r: Rec)
    requires Records(v) && OwnersHold(v) && s !in v.recs
    requires forall o :: o in r.free ==> Within(r, o)
    requires Records(Inject(v, s, r))
    ensures OwnersHold(Inject(v, s, r))
  {
    var w := Inject(v, s, r);
    forall o | o in w.owner
      ensures w.owner[o] in w.spans && Within(w.recs[w.owner[o]], o)
    {
      if o !in r.free {
        assert w.recs[w.owner[o]] == v.recs[v.owner[o]];
      }
    }
  }

  lemma InjectClaims(v: View, s: Span, r: Rec)
    requires Records(v) && Claims(v) && s !in v.recs
    requires forall o :: o in v.owner ==> o !in r.free
    requires r.out == {} && Records(Inject(v, s, r))
    ensures Claims(Inject(v, s, r))
  {
    var w := Inject(v, s, r);
    forall t | t in w.spans
      ensures Claimed(w.owner, t, w.recs[t])
    {
      if t != s {
        assert Claimed(v.owner, t, v.recs[t]);
        assert w.recs[t] == v.recs[t];
      }
    }
  }

  lemma InjectOut(v: View, s: Span, r: Rec)
    requires Records(v) && OwnersHold(v) && s !in v.recs && r.out == {}
    requires forall o :: o in v.owner ==> o !in r.free
    ensures OutOf(Inject(v, s, r)) == OutOf(v)
  {
    var w := Inject(v, s, r);
    forall o | o in OutOf(w)
      ensures o in OutOf(v)
    {
      if o !in r.free {
        assert w.owner[o] == v.owner[o] != s;
      }
    }
    forall o | o in OutOf(v)
      ensures o in OutOf(w)
    {
      assert w.owner[o] == v.owner[o] != s;
    }
  }

  // ---- Taking an object back ----

  /** An object comes back to the head of the span's free chain. */
  function ReturnRec(r: Rec, obj: nat): Rec
    requires r.alloc >= 1
  {
    r.(alloc := r.alloc - 1, free := [obj] + r.free, out := r.out - {obj})
  }

  /**
   * An object comes back to the head of its span's free chain; a span whose
   * chain was empty joins the list again.
   */
  function Return(v: View, s: Span, obj: nat): View
    requires s in v.recs && v.recs[s].alloc >= 1
  {
    var r := v.recs[s];
    v.(items := if r.free == [] then [s] + v.items else v.items,
       recs := v.recs[s := ReturnRec(r, obj)],
       numFree := v.numFree + 1)
  }

  /** The span an object out with a caller belongs to. */
  function OwnerOf(v: View, obj: nat): (s: Span)
    requires obj in OutOf(v)
    ensures s in v.recs && obj in v.recs[s].out
  {
    v.owner[obj]
  }

  /**
   * Taking back an object that is out keeps the invariant: it is free in its
   * span again and no longer out.
   */
  lemma ReturnKeeps(v: View, obj: nat)
    requires Fine(v, null) && obj in OutOf(v)
    ensures OwnerOf(v, obj) in v.items || v.recs[OwnerOf(v, obj)].free == []
    ensures v.recs[OwnerOf(v, obj)].alloc >= 1
    ensures Fine(Return(v, OwnerOf(v, obj), obj), null)
    ensures OutOf(Return(v, OwnerOf(v, obj), obj)) == OutOf(v) - {obj}
  {
    hide Listing, Owned, Carved;
    var s := OwnerOf(v, obj);
    Parts(v, null);
    ReturnRecords(v, s, obj);
    ReturnListing(v, s, obj);
    ReturnOwned(v, s, obj);
    ReturnOut(v, s, obj);
    ReturnCounts(v, s, obj);
  }

  lemma ReturnRecords(v: View, s: Span, obj: nat)
    requires Records(v) && s in v.recs && obj in v.recs[s].out
    ensures v.recs[s].alloc >= 1 && Records(Return(v, s, obj))
  {
    var r := v.recs[s];
    assert obj !in r.free;
    assert |r.out - {obj}| == |r.out| - 1;
    assert Carved(Return(v, s, obj).recs[s], v.cls);
  }

  lemma ReturnListing(v: View, s: Span, obj: nat)
    requires Records(v) && Listing(v, null) && s in v.recs && v.recs[s].alloc >= 1
    requires Records(Return(v, s, obj))
    ensures s in v.items || v.recs[s].free == []
    ensures Listing(Return(v, s, obj), null)
  {
    if v.recs[s].free == [] {
      DistinctCons(s, v.items);
    }
  }

  lemma ReturnOwned(v: View, s: Span, obj: nat)
    requires Records(v) && Owned(v) && s in v.recs && v.recs[s].alloc >= 1
    requires obj in v.owner && v.owner[obj] == s
    requires Records(Return(v, s, obj))
    ensures Owned(Return(v, s, obj))
  {
    var w := Return(v, s, obj);
    assert Claimed(v.owner, s, v.recs[s]);
    forall t | t in w.spans
      ensures Claimed(w.owner, t, w.recs[t])
    {
      if t != s {
        assert w.recs[t] == v.recs[t];
      }
    }
  }

  lemma ReturnOut(v: View, s: Span, obj: nat)
    requires Records(v) && s in v.recs && v.recs[s].alloc >= 1
    requires obj in v.owner && v.owner[obj] == s
    ensures OutOf(Return(v, s, obj)) == OutOf(v) - {obj}
  {
  }

  lemma ReturnCounts(v: View, s: Span, obj: nat)
    requires Records(v) && Listing(v, null) && s in v.recs && v.recs[s].alloc >= 1
    requires v.numFree == Sum(Counts(v.items, v.recs))
    ensures Return(v, s, obj).numFree == Sum(Counts(Return(v, s, obj).items, Return(v, s, obj).recs))
  {
    var w := Return(v, s, obj);
    var r := v.recs[s];
    if r.free == [] {
      assert s !in v.items;
      CountsUnlisted(v.items, v.recs, s, w.recs[s]);
      assert Counts(w.items, w.recs) == [1] + Counts(v.items, w.recs);
    } else {
      CountsUpdate(v.items, v.recs, s, w.recs[s]);
    }
  }

  // ---- Giving a span back ----

  /** A span whose objects are all back leaves the list and its objects leave the books. */
  function Release(v: View, s: Span): View
    requires s in v.recs && v.numFree >= v.recs[s].total
  {
    v.(items := Without(v.items, s), spans := v.spans - {s}, recs := v.recs - {s},
       owner := map o | o in v.owner && v.owner[o] != s :: v.owner[o],
       numFree := v.numFree - v.recs[s].total)
  }

  /** Release, field by field. */
  lemma ReleaseParts(v: View, s: Span)
    requires s in v.recs && v.numFree >= v.recs[s].total
    ensures Release(v, s).items == Without(v.items, s) && Release(v, s).spans == v.spans - {s}
    ensures Release(v, s).recs == v.recs - {s} && Release(v, s).numFree == v.numFree - v.recs[s].total
    ensures Release(v, s).cls == v.cls
  {
  }

  /**
   * Giving back a listed span none of whose objects is out keeps the
   * invariant, and changes nothing that is out.
   */
  lemma ReleaseKeeps(v: View, s: Span)
    requires Fine(v, null) && s in v.items && v.recs[s].alloc == 0
    ensures v.numFree >= v.recs[s].total
    ensures Fine(Release(v, s), null) && OutOf(Release(v, s)) == OutOf(v)
  {
    hide Listing, Owned, Carved;
    Parts(v, null);
    ReleaseCounts(v, s);
    ReleaseRecords(v, s);
    ReleaseListing(v, s);
    ReleaseOwned(v, s);
    ReleaseOut(v, s);
  }

  // ---- One object of insert_range ----

  /**
   * insert_range's step for one object: it goes back to its span, and when
   * that leaves none of the span's objects out while another span is still
   * listed, the span is given back as well.
   */
  ghost function Reclaim(v: View, obj: nat): View
    requires Fine(v, null) && obj in OutOf(v)
  {
    ReturnKeeps(v, obj);
    var s := OwnerOf(v, obj);
    var u := Return(v, s, obj);
    if u.recs[s].alloc == 0 && |u.items| > 1 then
      Listed(u, s);
      ReleaseKeeps(u, s);
      Release(u, s)
    else
      u
  }

  /** Whether taking obj back empties its span while it is not the only one listed. */
  ghost predicate Frees(v: View, obj: nat)
    requires Fine(v, null) && obj in OutOf(v)
  {
    ReturnKeeps(v, obj);
    var u := Return(v, OwnerOf(v, obj), obj);
    u.recs[OwnerOf(v, obj)].alloc == 0 && |u.items| > 1
  }

  /** Reclaim, unfolded: the return, then the release exactly when Frees holds. */
  lemma ReclaimBy(v: View, obj: nat)
    requires Fine(v, null) && obj in OutOf(v)
    ensures OwnerOf(v, obj) in v.recs && v.recs[OwnerOf(v, obj)].alloc >= 1
    ensures var s := OwnerOf(v, obj); var u := Return(v, s, obj);
      && (Frees(v, obj) <==> u.recs[s].alloc == 0 && |u.items| > 1)
      && (!Frees(v, obj) ==> Reclaim(v, obj) == u)
      && (Frees(v, obj) ==> s in u.recs && u.numFree >= u.recs[s].total && Reclaim(v, obj) == Release(u, s))
  {
    ReturnKeeps(v, obj);
    var s := OwnerOf(v, obj);
    var u := Return(v, s, obj);
    if u.recs[s].alloc == 0 && |u.items| > 1 {
      Listed(u, s);
      ReleaseKeeps(u, s);
    }
  }

  /**
   * Taking one object back keeps the invariant, takes exactly that object
   * off the books, and never leaves the list empty: a span is only given
   * back while another one stays listed. The spans change only by the
   * object's own span, and only when it is freed.
   */
  lemma {:induction false} ReclaimKeeps(v: View, obj: nat)
    requires Fine(v, null) && obj in OutOf(v)
    ensures Fine(Reclaim(v, obj), null) && OutOf(Reclaim(v, obj)) == OutOf(v) - {obj}
    ensures Reclaim(v, obj).items != []
    ensures Reclaim(v, obj).spans == if Frees(v, obj) then v.spans - {OwnerOf(v, obj)} else v.spans
    ensures Frees(v, obj) ==> Reclaim(v, obj).numFree + v.recs[OwnerOf(v, obj)].total == v.numFree + 1
  {
    ReturnKeeps(v, obj);
    var s := OwnerOf(v, obj);
    var u := Return(v, s, obj);
    Listed(u, s);
    if u.recs[s].alloc == 0 && |u.items| > 1 {
      ReleaseKeeps(u, s);
      ReleaseParts(u, s);
    }
  }

  /** A chain of distinct objects, all out, against books that hold. */
  ghost predicate Pending(v: View, objs: seq<nat>)
  {
    Fine(v, null) && NoDup(objs) && forall k :: 0 <= k < |objs| ==> objs[k] in OutOf(v)
  }

  /** After the head of a chain is back, the rest is still pending. */
  lemma PendingRest(v: View, objs: seq<nat>)
    requires Pending(v, objs) && objs != []
    ensures Pending(Reclaim(v, objs[0]), objs[1..])
  {
    hide Fine, Reclaim, Frees;
    ReclaimKeeps(v, objs[0]);
  }

  /** A prefix of a pending chain is pending. */
  lemma PendingPrefix(v: View, objs: seq<nat>, n: nat)
    requires Pending(v, objs) && n <= |objs|
    ensures Pending(v, objs[..n])
  {
    hide Fine;
  }

  /** insert_range over a chain: its objects taken back one after the other, head first. */
  ghost function ReclaimAll(v: View, objs: seq<nat>): View
    requires Pending(v, objs)
    decreases |objs|
  {
    if objs == [] then v
    else
      PendingRest(v, objs);
      ReclaimAll(Reclaim(v, objs[0]), objs[1..])
  }

  /**
   * Taking a chain back keeps the invariant and takes exactly its objects
   * off the books; once any object came back the list is not empty.
   */
  lemma {:induction false} ReclaimAllKeeps(v: View, objs: seq<nat>)
    requires Pending(v, objs)
    ensures Fine(ReclaimAll(v, objs), null)
    ensures OutOf(ReclaimAll(v, objs)) == OutOf(v) - set o | o in objs
    ensures objs != [] ==> ReclaimAll(v, objs).items != []
    decreases |objs|
  {
    hide Fine, Reclaim, Frees;
    if objs != [] {
      ReclaimKeeps(v, objs[0]);
      PendingRest(v, objs);
      var w := Reclaim(v, objs[0]);
      ReclaimAllKeeps(w, objs[1..]);
      assert (set o | o in objs) == {objs[0]} + set o | o in objs[1..];
      if objs[1..] == [] {
        assert ReclaimAll(v, objs) == w;
      }
    }
  }

  /** Taking back one more object after a chain is the last step of taking back the longer chain. */
  lemma {:induction false} ReclaimAllSnoc(v: View, objs: seq<nat>, x: nat)
    requires Pending(v, objs + [x])
    ensures Pending(v, objs) && Fine(ReclaimAll(v, objs), null) && x in OutOf(ReclaimAll(v, objs))
    ensures ReclaimAll(v, objs + [x]) == Reclaim(ReclaimAll(v, objs), x)
    decreases |objs|
  {
    hide Fine, Reclaim, Frees;
    assert (objs + [x])[|objs|] == x;
    assert forall k :: 0 <= k < |objs| ==> objs[k] == (objs + [x])[k];
    ReclaimAllKeeps(v, objs);
    if objs != [] {
      hide Pending;
      PendingRest(v, objs + [x]);
      assert (objs + [x])[1..] == objs[1..] + [x];
      ReclaimAllSnoc(Reclaim(v, objs[0]), objs[1..], x);
    }
  }

  lemma ReleaseCounts(v: View, s: Span)
    requires Records(v) && s in v.items && s in v.recs && v.recs[s].alloc == 0 && Distinct(v.items)
    requires forall t :: t in v.items ==> t in v.recs
    requires v.numFree == Sum(Counts(v.items, v.recs))
    ensures v.numFree >= v.recs[s].total
    ensures Release(v, s).numFree == Sum(Counts(Release(v, s).items, Release(v, s).recs))
  {
    CountsWithout(v.items, v.recs, s);
    var xs := Without(v.items, s);
    assert s !in xs by {
      WithoutAt(v.items, IndexOf(v.items, s));
    }
    assert Counts(xs, v.recs - {s}) == Counts(xs, v.recs);
  }

  lemma ReleaseRecords(v: View, s: Span)
    requires Records(v) && s in v.recs && v.numFree >= v.recs[s].total
    ensures Records(Release(v, s))
  {
  }

  lemma ReleaseListing(v: View, s: Span)
    requires Records(v) && Listing(v, null) && s in v.items && v.numFree >= v.recs[s].total
    requires Records(Release(v, s))
    ensures Listing(Release(v, s), null)
  {
    var w := Release(v, s);
    var j := IndexOf(v.items, s);
    WithoutAt(v.items, j);
    forall t | t in v.items
      ensures t in w.items <==> t != s
    {
      var k := IndexOf(v.items, t);
      if t != s {
        assert w.items[if k < j then k else k - 1] == t;
      }
    }
  }

  lemma ReleaseOwned(v: View, s: Span)
    requires Records(v) && Owned(v) && s in v.recs && v.numFree >= v.recs[s].total
    requires Records(Release(v, s))
    ensures Owned(Release(v, s))
  {
    var w := Release(v, s);
    forall t | t in w.spans
      ensures Claimed(w.owner, t, w.recs[t])
    {
      assert Claimed(v.owner, t, v.recs[t]);
    }
  }

  lemma ReleaseOut(v: View, s: Span)
    requires Records(v) && s in v.recs && v.recs[s].alloc == 0 && v.numFree >= v.recs[s].total
    ensures OutOf(Release(v, s)) == OutOf(v)
  {
    assert v.recs[s].out == {};
  }
}
