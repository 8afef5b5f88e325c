/**
 * The top-level allocator: how a request is routed (a dangling pointer for
 * zero bytes, a size class for small requests the class can align, the page
 * heap for everything else), how large blocks are taken from and given back
 * to the page heap (including the over-aligned trim), how realloc decides
 * between staying in place and moving, and the thread-local cache state of
 * the `nightly` build.
 *
 * Pointers are byte addresses (`nat`); a null result is `None`.
 */
module Allocator {
  import opened Config
  import opened Wrappers
  import opened Platform
  import opened SizeClass
  import opened Spans
  import opened PageMaps
  import opened HeapViews
  import opened PageHeaps
  import CentralFreeLists
  import CentralViews

  // ---- Powers of two and alignment arithmetic ----

  /** A power of two, as `Layout` guarantees of every alignment. */
  predicate IsPow2(x: nat)
    decreases x
  {
    if x <= 1 then x == 1 else x % 2 == 0 && IsPow2(x / 2)
  }

  /** A non-zero multiple of d is at least d away from zero. */
  lemma MulBounds(k: int, d: nat)
    requires d > 0
    ensures k >= 1 ==> k * d >= d
    ensures k <= -1 ==> k * d + d <= 0
  {
  }

  /** A multiple of d is an exact product, whose quotient is the factor. */
  lemma MulDiv(m: nat, d: nat)
    requires d > 0
    ensures (m * d) % d == 0 && (m * d) / d == m
  {
    var q, r := (m * d) / d, (m * d) % d;
    assert m * d == q * d + r && 0 <= r < d;
    assert (m - q) * d == r;
    MulBounds(m - q, d);
  }

  /** Of two powers of two the larger is a multiple of the smaller. */
  lemma {:induction false} Pow2Divides(a: nat, b: nat)
    requires IsPow2(a) && IsPow2(b) && a <= b
    ensures b % a == 0
    decreases b
  {
    if a == 1 {
    } else if a == b {
      MulDiv(1, a);
    } else {
      Pow2Divides(a / 2, b / 2);
      var k := (b / 2) / (a / 2);
      assert b / 2 == k * (a / 2);
      assert b == k * a;
      MulDiv(k, a);
    }
  }

  lemma PageSizePow2()
    ensures IsPow2(PAGE_SIZE) && IsPow2(8)
  {
    assert IsPow2(1) && IsPow2(2) && IsPow2(4) && IsPow2(8) && IsPow2(16) && IsPow2(32) && IsPow2(64);
    assert IsPow2(128) && IsPow2(256) && IsPow2(512) && IsPow2(1024) && IsPow2(2048) && IsPow2(4096);
  }

  /** Sums of multiples of a are multiples of a. */
  lemma MultipleSum(x: nat, y: nat, a: nat)
    requires a > 0 && x % a == 0 && y % a == 0
    ensures (x + y) % a == 0
  {
    var i, j := x / a, y / a;
    assert x == i * a && y == j * a;
    assert x + y == (i + j) * a;
    MulDiv(i + j, a);
  }

  /** Multiples of a multiple of a are multiples of a. */
  lemma MultipleScale(k: nat, x: nat, a: nat)
    requires a > 0 && x % a == 0
    ensures (k * x) % a == 0
  {
    var i := x / a;
    assert x == i * a;
    assert k * x == (k * i) * a;
    MulDiv(k * i, a);
  }

  /** `x & !(a - 1)` for a power of two a: x rounded down to a multiple of a. */
  function MaskDown(x: nat, a: nat): (r: nat)
    requires a > 0
    ensures r <= x < r + a && r % a == 0
  {
    var q := x / a;
    assert x == q * a + x % a;
    MulDiv(q, a);
    x - x % a
  }

  // ---- Routing (alloc, dealloc) ----

  /** Where alloc sends a request. */
  datatype AllocRoute =
    | Dangling(addr: nat)   // zero bytes: the alignment itself, never dereferenced
    | Small(cls: nat)       // a size class, served by the small-object tiers
    | Large                 // whole pages from the page heap

  /** alloc's routing on the request's size and alignment. */
  function RouteAlloc(size: nat, align: nat): (r: AllocRoute)
    ensures r.Dangling? <==> size == 0
    ensures r.Dangling? ==> r.addr == align
    ensures r.Small? ==> 1 <= r.cls < NUM_SIZE_CLASSES
  {
    if size == 0 then Dangling(align)
    else if align <= 8 then
      var c := SizeToClass(size);
      if c != 0 then Small(c) else Large
    else
      var c := SizeToClass(if size > align then size else align);
      if c != 0 && align <= PAGE_SIZE && ClassToSize(c) % align == 0 then Small(c) else Large
  }

  /**
   * A small route names the smallest class that holds the request (and the
   * alignment, when that exceeds 8); only zero-byte requests are dangling.
   */
  lemma RouteSmall(size: nat, align: nat)
    requires RouteAlloc(size, align).Small?
    ensures var c := RouteAlloc(size, align).cls;
      && 1 <= c < NUM_SIZE_CLASSES && size <= ClassToSize(c)
      && (align > 8 ==> align <= ClassToSize(c) && align <= PAGE_SIZE && ClassToSize(c) % align == 0)
      && forall k :: 1 <= k < c ==> ClassToSize(k) < (if align > 8 && align > size then align else size)
  {
    var need := if align > 8 && align > size then align else size;
    if need > MAX_SMALL_SIZE {
      SizeToClassLarge(need);
    } else {
      SizeToClassSmallestFit(need);
    }
  }

  /**
   * The page heap gets exactly the non-empty requests that no class can take:
   * too big for every class, or over-aligned beyond a page or beyond what
   * the class's size is a multiple of.
   */
  lemma RouteLarge(size: nat, align: nat)
    ensures RouteAlloc(size, align) == Large <==>
      var need := if align > 8 && align > size then align else size;
      size != 0 && (need > MAX_SMALL_SIZE
                    || (align > 8 && (align > PAGE_SIZE || ClassToSize(SizeToClass(need)) % align != 0)))
  {
    var need := if align > 8 && align > size then align else size;
    if size != 0 {
      if need > MAX_SMALL_SIZE {
        SizeToClassLarge(need);
      } else {
        SizeToClassSmallestFit(need);
      }
    }
  }

  /**
   * An object of a small route's class, carved at a whole number of objects
   * into a page-aligned span, meets the requested alignment.
   */
  lemma SmallObjectAligned(size: nat, align: nat, startPage: nat, i: nat)
    requires IsPow2(align) && RouteAlloc(size, align).Small?
    ensures (startPage * PAGE_SIZE + i * ClassToSize(RouteAlloc(size, align).cls)) % align == 0
  {
    hide ClassToSize, SizeToClass, RouteAlloc;
    RouteSmall(size, align);
    var c := RouteAlloc(size, align).cls;
    var cs := ClassToSize(c);
    if align <= 8 {
      SmallAlignDivides(c, align);
    }
    assert align <= PAGE_SIZE && cs % align == 0;
    hide *;
    OffsetAligned(startPage, i, cs, align);
  }

  /** Every class size is a multiple of every power of two up to 8. */
  lemma SmallAlignDivides(c: nat, align: nat)
    requires IsPow2(align) && align <= 8 && c < NUM_SIZE_CLASSES
    ensures ClassToSize(c) % align == 0
  {
    RowFacts(c);
    PageSizePow2();
    Pow2Divides(align, 8);
    assert align > 0;
    ScaledMultiple(ClassToSize(c), 8, align);
  }

  /** A multiple of m is a multiple of every divisor of m. */
  lemma ScaledMultiple(x: nat, m: nat, a: nat)
    requires m > 0 && a > 0 && x % m == 0 && m % a == 0
    ensures x % a == 0
  {
    assert x == (x / m) * m;
    MultipleScale(x / m, m, a);
  }

  /** A page boundary is aligned to every power of two up to a page. */
  lemma PageAligned(startPage: nat, align: nat)
    requires IsPow2(align) && align <= PAGE_SIZE
    ensures (startPage * PAGE_SIZE) % align == 0
  {
    PageSizePow2();
    Pow2Divides(align, PAGE_SIZE);
    assert align > 0;
    hide *;
    MultipleScale(startPage, PAGE_SIZE, align);
  }

  /** Object i of size cs in a span starting at a page boundary is aligned to every power-of-two divisor of cs up to a page. */
  lemma OffsetAligned(startPage: nat, i: nat, cs: nat, align: nat)
    requires IsPow2(align) && align <= PAGE_SIZE && cs % align == 0
    ensures (startPage * PAGE_SIZE + i * cs) % align == 0
  {
    PageAligned(startPage, align);
    assert align > 0;
    hide *;
    MultipleScale(i, cs, align);
    MultipleSum(startPage * PAGE_SIZE, i * cs, align);
  }

  /** Where dealloc sends a block. */
  datatype FreeRoute =
    | Skip                  // zero bytes, or a page the page map does not know
    | SmallFree(cls: nat)   // the size class recorded on the block's span
    | LargeFree             // the span goes back to the page heap

  // ---- Large blocks ----

  /** Every live span of the heap is apart from the run. */
  ghost predicate Vacant(heap: PageHeap, run: SpanInfo)
    reads heap
  {
    forall t :: t in heap.live ==> t in heap.info && Apart(heap.info[t], run)
  }

  /** The pages of alloc_large's over-aligned request, laid out from the span's first page. */
  datatype Trim = Trim(aligned: nat, prefix: nat, suffix: nat)

  /**
   * alloc_large's over-aligned arithmetic: of the sizePages + alignPages - 1
   * pages starting at startPage, the first multiple of align at or after the
   * start begins `prefix` pages in; the block takes sizePages from there and
   * `suffix` pages remain after it.
   */
  function TrimOf(startPage: nat, sizePages: nat, align: nat): (t: Trim)
    requires IsPow2(align) && align > PAGE_SIZE
    ensures var start := startPage * PAGE_SIZE;
      && start <= t.aligned < start + align && t.aligned % align == 0
      && t.aligned == (startPage + t.prefix) * PAGE_SIZE
      && t.prefix + sizePages + t.suffix == sizePages + align / PAGE_SIZE - 1
  {
    PageSizePow2();
    Pow2Divides(PAGE_SIZE, align);
    var alignPages := align / PAGE_SIZE;
    var total := sizePages + alignPages - 1;
    var start := startPage * PAGE_SIZE;
    var aligned := MaskDown(start + align - 1, align);
    var q := aligned / align;
    MulDiv(q, align);
    assert aligned == (q * alignPages) * PAGE_SIZE;
    var prefix := (aligned - start) / PAGE_SIZE;
    assert prefix == q * alignPages - startPage && prefix < alignPages;
    Trim(aligned, prefix, total - prefix - sizePages)
  }

  /** register_span on a span just handed out: its size class is cleared and every page maps to it again. */
  method Reregister(heap: PageHeap, r: Span)
    requires heap.Valid() && r in heap.inUse
    modifies heap, heap.pm, heap.pm.root, r`sizeClass
    ensures heap.Valid() && heap.inUse == old(heap.inUse) && heap.info == old(heap.info) && heap.live == old(heap.live)
    ensures heap.free == old(heap.free) && heap.slab.freeList == old(heap.slab.freeList) && heap.os.nextPage == old(heap.os.nextPage)
    ensures r.sizeClass == 0
  {
    hide Good, PageHeap.Coupled, PageMap.Valid, PageMap.Shape;
    InUseMapped(heap.Snapshot(), r);
    heap.TakeBack(r);
    r.sizeClass := 0;
    heap.RegisterLoose(r);
    heap.MarkHandedOut(r);
  }

  /**
   * The over-aligned block's own span: unregistered, cut down to the n pages
   * that start off pages in, its size class cleared, and registered again.
   */
  method Keep(heap: PageHeap, r: Span, off: nat, n: nat)
    requires heap.Valid() && r in heap.inUse && 1 <= n && off + n <= heap.info[r].pages
    modifies heap, heap.pm, heap.pm.root, r`startPage, r`numPages, r`sizeClass
    ensures heap.Valid() && heap.inUse == old(heap.inUse) && heap.live == old(heap.live) && heap.free == old(heap.free)
    ensures heap.info == old(heap.info)[r := SpanInfo(old(heap.info[r].start) + off, n, InUse)]
    ensures heap.slab.freeList == old(heap.slab.freeList) && heap.os.nextPage == old(heap.os.nextPage)
    ensures r.sizeClass == 0
  {
    hide Good, PageHeap.Coupled, PageMap.Valid, PageMap.Shape;
    InUseMapped(heap.Snapshot(), r);
    heap.TakeBack(r);
    heap.UnregisterLoose(r);
    heap.Narrow(r, off, n);
    r.sizeClass := 0;
    heap.RegisterLoose(r);
    heap.MarkHandedOut(r);
  }

  /**
   * alloc_span and the field writes of a trimmed run: a struct that was not
   * live takes the run and is handed out with every page mapped to it;
   * null (nothing changes) when the slab has no struct to give.
   */
  method Enlist(heap: PageHeap, start: nat, pages: nat) returns (t: Span?)
    requires heap.Valid() && 1 <= pages && start + pages <= heap.os.nextPage
    requires Vacant(heap, SpanInfo(start, pages, InUse))
    modifies heap, heap.pm, heap.pm.root, heap.slab, heap.os, heap.slab.freeList
    ensures heap.Valid() && heap.free == old(heap.free) && heap.os.nextPage >= old(heap.os.nextPage)
    ensures t == null ==> heap.inUse == old(heap.inUse) && heap.live == old(heap.live) && heap.info == old(heap.info)
    ensures t != null ==> t !in old(heap.live) && heap.inUse == old(heap.inUse) + {t} && heap.live == old(heap.live) + {t}
    ensures t != null ==> heap.info == old(heap.info)[t := SpanInfo(start, pages, InUse)]
    ensures t != null ==> fresh(t) || t in old(heap.slab.freeList)
    ensures forall x :: x in heap.slab.freeList ==> x in old(heap.slab.freeList)
  {
    hide Good, PageHeap.Coupled, PageMap.Valid, PageMap.Shape;
    t := heap.NewStruct();
    if t == null {
      return;
    }
    heap.Adopt(t, start, pages);
    heap.RegisterLoose(t);
    heap.MarkHandedOut(t);
  }

  /**
   * Trimmed pages go back to the heap: a span struct takes the run and
   * deallocate_span frees it (merging it with free neighbours); without a
   * struct the pages are left unused. Spans handed out are untouched, and a
   * run `keep` that no live span held stays that way.
   */
  method GiveBack(heap: PageHeap, start: nat, pages: nat, ghost keep: SpanInfo)
    requires heap.Valid() && 1 <= pages && start + pages <= heap.os.nextPage
    requires Vacant(heap, SpanInfo(start, pages, InUse)) && Vacant(heap, keep)
    requires Apart(SpanInfo(start, pages, InUse), keep)
    modifies heap, heap.pm, heap.pm.root, heap.slab, heap.os, heap.slab.freeList, heap.free
    ensures heap.Valid() && heap.inUse == old(heap.inUse) && (keep.pages >= 1 ==> Vacant(heap, keep))
    ensures forall t :: t in old(heap.inUse) ==> t in heap.live && heap.info[t] == old(heap.info[t])
    ensures forall t :: t in heap.slab.freeList ==> t in old(heap.slab.freeList) || t in old(heap.free) || fresh(t)
    ensures forall t :: t in heap.free ==> t in old(heap.free) || t in old(heap.slab.freeList) || fresh(t)
    ensures heap.os.nextPage >= old(heap.os.nextPage)
  {
    Frontier(heap.Snapshot());
    hide Good, PageHeap.Coupled, PageMap.Valid, PageMap.Shape;
    var t := Enlist(heap, start, pages);
    if t == null {
      return;
    }
    ghost var before := heap.Snapshot();
    Frontier(before);
    ghost var m, left, right := heap.DeallocateSpan(t);
    Frontier(heap.Snapshot());
    if keep.pages >= 1 {
      MergedApart(before, heap.Snapshot(), t, m, left, right, keep);
    }
  }

  /**
   * deallocate_span's merge keeps a run apart from every live span: the
   * merged span covers the freed run and the free neighbours it absorbed,
   * each apart from the run, and no other span changed.
   */
  lemma MergedApart(before: View, after: View, t: Span, m: Span, left: Span?, right: Span?, keep: SpanInfo)
    requires forall x :: x in before.live ==> x in before.info && Apart(before.info[x], keep)
    requires keep.pages >= 1 && t in before.live && m in after.live && m in after.info
    requires forall x :: x in after.live && x != m ==> x in before.live && x in after.info && after.info[x] == before.info[x]
    requires left == null ==> m == t
    requires left != null ==> m == left && FreeEndsAt(before, left, before.info[t].start)
    requires after.info[m].start == before.info[m].start
    requires right != null ==> FreeStartsAt(before, right, End(before.info[t]))
    requires End(after.info[m]) == if right == null then End(before.info[t]) else End(before.info[right])
    requires before.free <= before.live
    ensures forall x :: x in after.live ==> x in after.info && Apart(after.info[x], keep)
  {
    forall x | x in after.live
      ensures x in after.info && Apart(after.info[x], keep)
    {
      if x == m {
        assert Apart(before.info[t], keep);
        assert left != null ==> Apart(before.info[left], keep);
        assert right != null ==> Apart(before.info[right], keep);
      }
    }
  }

  /**
   * A large block as alloc_large hands it out: an in-use span with size
   * class 0, starting at addr, big enough for size bytes, every page of it
   * mapped to it.
   */
  ghost predicate Block(heap: PageHeap, s: Span, addr: nat, size: nat)
    reads heap, s, heap.pm
  {
    && s in heap.inUse && s.sizeClass == 0
    && addr == s.startPage * PAGE_SIZE && size <= s.numPages * PAGE_SIZE
    && forall p :: s.startPage <= p < s.startPage + s.numPages ==> Lookup(heap.pm.Contents, p) == s
  }

  /**
   * alloc_large when a page's alignment suffices: a span of
   * ceil(size / PAGE_SIZE) pages (more when it could not be carved), its
   * size class cleared and its pages registered; null when the heap has
   * none to give.
   */
  method AllocPageAligned(heap: PageHeap, size: nat) returns (res: Option<nat>, ghost span: Span?)
    requires heap.Valid() && 1 <= size
    modifies heap, heap.pm, heap.pm.root, heap.slab, heap.os, heap.slab.freeList, heap.free
    ensures heap.Valid() && (res.None? <==> span == null)
    ensures span == null ==> heap.inUse == old(heap.inUse)
    ensures span != null ==> span !in old(heap.inUse) && heap.inUse == old(heap.inUse) + {span}
    ensures span != null ==> span in old(heap.free) || span in old(heap.slab.freeList) || fresh(span)
    ensures span != null ==> Block(heap, span, res.value, size) && span.numPages >= PagesFor(size)
    ensures span != null ==> span.numPages == PagesFor(size) || heap.Exhausted()
    ensures forall t :: t in heap.slab.freeList ==> t in old(heap.slab.freeList) || t in old(heap.free) || fresh(t)
    ensures forall t :: t in heap.free ==> t in old(heap.free) || t in old(heap.slab.freeList) || fresh(t)
  {
    var n := PagesFor(size);
    var r, _ := heap.AllocateSpan(n);
    if r == null {
      return None, null;
    }
    Reregister(heap, r);
    heap.Holding(r);
    res, span := Some(r.startPage * PAGE_SIZE), r;
  }

  /**
   * alloc_large beyond a page's alignment: sizePages + alignPages - 1 pages
   * are taken, the block keeps the sizePages that start at the first
   * multiple of align, and the pages before and after it go back to the
   * heap.
   */
  method AllocOverAligned(heap: PageHeap, size: nat, align: nat) returns (res: Option<nat>, ghost span: Span?)
    requires heap.Valid() && 1 <= size && IsPow2(align) && align > PAGE_SIZE
    modifies heap, heap.pm, heap.pm.root, heap.slab, heap.os, heap.slab.freeList, heap.free
    ensures heap.Valid() && (res.None? <==> span == null)
    ensures span == null ==> heap.inUse == old(heap.inUse)
    ensures span != null ==> span !in old(heap.inUse) && heap.inUse == old(heap.inUse) + {span}
    ensures span != null ==> span in old(heap.free) || span in old(heap.slab.freeList) || fresh(span)
    ensures span != null ==> Block(heap, span, res.value, size) && span.numPages == PagesFor(size)
    ensures span != null ==> res.value % align == 0
    ensures forall t :: t in heap.slab.freeList ==> t in old(heap.slab.freeList) || t in old(heap.free) || fresh(t)
    ensures forall t :: t in heap.free ==> t in old(heap.free) || t in old(heap.slab.freeList) || fresh(t)
  {
    var sizePages := PagesFor(size);
    var alignPages := align / PAGE_SIZE;
    var total := sizePages + alignPages - 1;
    var r, _ := heap.AllocateSpan(total);
    if r == null {
      return None, null;
    }
    hide *;
    heap.Holding(r);
    assert forall i :: 0 <= i < |heap.slab.freeList| ==> heap.slab.freeList[i] in old(heap.slab.freeList);
    var aligned := TrimToAlignment(heap, r, size, align);
    res, span := Some(aligned), r;
  }

  /**
   * The over-aligned span cut down to the sizePages starting at the first
   * multiple of align in it, the pages on either side returned to the heap.
   */
  method TrimToAlignment(heap: PageHeap, r: Span, size: nat, align: nat) returns (aligned: nat)
    requires heap.Valid() && r in heap.inUse && IsPow2(align) && align > PAGE_SIZE && 1 <= size
    requires r in heap.info && heap.info[r].pages >= PagesFor(size) + align / PAGE_SIZE - 1
    modifies heap, heap.pm, heap.pm.root, heap.slab, heap.os, heap.slab.freeList, heap.free
    modifies r`startPage, r`numPages, r`sizeClass
    ensures heap.Valid() && heap.inUse == old(heap.inUse)
    ensures Block(heap, r, aligned, size) && aligned % align == 0 && r.numPages == PagesFor(size)
    ensures forall t :: t in heap.slab.freeList ==> t in old(heap.slab.freeList) || t in old(heap.free) || fresh(t)
    ensures forall t :: t in heap.free ==> t in old(heap.free) || t in old(heap.slab.freeList) || fresh(t)
  {
    var sizePages := PagesFor(size);
    heap.Holding(r);
    var start := r.startPage;
    var trim := TrimOf(start, sizePages, align);
    hide PageHeap.Valid, PageHeap.Inv, Good, PageHeap.Coupled, PageMap.Valid, PageMap.Shape;
    TrimmedVacant(heap, r, trim.prefix, sizePages, trim.suffix);
    Keep(heap, r, trim.prefix, sizePages);
    ReturnTrim(heap, r, start, trim.prefix, sizePages, trim.suffix);
    aligned := trim.aligned;
  }

  /**
   * The pages before and after the kept block go back to the heap through
   * dealloc_span, the block itself staying as it is.
   */
  method ReturnTrim(heap: PageHeap, r: Span, start: nat, prefix: nat, n: nat, suffix: nat)
    requires heap.Valid() && r in heap.inUse && r.sizeClass == 0
    requires r in heap.info && heap.info[r] == SpanInfo(start + prefix, n, InUse)
    requires start + prefix + n + suffix <= heap.os.nextPage
    requires forall t :: t in heap.live && t != r ==>
      (&& t in heap.info
       && Apart(heap.info[t], SpanInfo(start, prefix, InUse))
       && Apart(heap.info[t], SpanInfo(start + prefix + n, suffix, InUse)))
    modifies heap, heap.pm, heap.pm.root, heap.slab, heap.os, heap.slab.freeList, heap.free
    ensures heap.Valid() && heap.inUse == old(heap.inUse) && r.sizeClass == 0
    ensures r.startPage == start + prefix && r.numPages == n
    ensures forall p :: r.startPage <= p < r.startPage + r.numPages ==> Lookup(heap.pm.Contents, p) == r
    ensures forall t :: t in heap.slab.freeList ==> t in old(heap.slab.freeList) || t in old(heap.free) || fresh(t)
    ensures forall t :: t in heap.free ==> t in old(heap.free) || t in old(heap.slab.freeList) || fresh(t)
  {
    heap.Holding(r);
    ghost var suffixRun := SpanInfo(start + prefix + n, suffix, InUse);
    if prefix > 0 {
      GiveBack(heap, start, prefix, suffixRun);
      heap.Holding(r);
    }
    if suffix > 0 {
      GiveBack(heap, start + prefix + n, suffix, SpanInfo(0, 0, InUse));
    }
    heap.Holding(r);
  }

  /**
   * Before the over-aligned span is cut down, the runs before and after the
   * block it keeps are held by no other live span.
   */
  lemma TrimmedVacant(heap: PageHeap, r: Span, prefix: nat, n: nat, suffix: nat)
    requires heap.Valid() && r in heap.inUse && prefix + n + suffix <= heap.info[r].pages
    ensures forall t :: t in heap.live && t != r ==>
      (&& t in heap.info
       && Apart(heap.info[t], SpanInfo(heap.info[r].start, prefix, InUse))
       && Apart(heap.info[t], SpanInfo(heap.info[r].start + prefix + n, suffix, InUse)))
  {
    Frontier(heap.Snapshot());
    LiveApart(heap.Snapshot(), r);
  }

  /** alloc_large: the block is aligned as asked, from a span that holds the request. */
  method AllocLarge(heap: PageHeap, size: nat, align: nat) returns (res: Option<nat>, ghost span: Span?)
    requires heap.Valid() && 1 <= size && IsPow2(align)
    modifies heap, heap.pm, heap.pm.root, heap.slab, heap.os, heap.slab.freeList, heap.free
    ensures heap.Valid() && (res.None? <==> span == null)
    ensures span == null ==> heap.inUse == old(heap.inUse)
    ensures span != null ==> span !in old(heap.inUse) && heap.inUse == old(heap.inUse) + {span}
    ensures span != null ==> span in old(heap.free) || span in old(heap.slab.freeList) || fresh(span)
    ensures span != null ==> Block(heap, span, res.value, size) && res.value % align == 0
    ensures forall t :: t in heap.slab.freeList ==> t in old(heap.slab.freeList) || t in old(heap.free) || fresh(t)
    ensures forall t :: t in heap.free ==> t in old(heap.free) || t in old(heap.slab.freeList) || fresh(t)
  {
    if align <= PAGE_SIZE {
      res, span := AllocPageAligned(heap, size);
      if span != null {
        OffsetAligned(span.startPage, 0, 0, align);
      }
    } else {
      res, span := AllocOverAligned(heap, size, align);
    }
  }

  /** Whatever page addr falls in, a span of size class 0 found there is handed out. */
  ghost predicate LargeOwned(heap: PageHeap, addr: nat)
    reads heap, heap.pm, {Lookup(heap.pm.Contents, addr / PAGE_SIZE)}
  {
    var s := Lookup(heap.pm.Contents, addr / PAGE_SIZE);
    s != null && s.sizeClass == 0 ==> s in heap.inUse
  }

  /** A block alloc_large handed out is one dealloc gives back to the heap. */
  lemma BlockFreeable(heap: PageHeap, s: Span, addr: nat, size: nat)
    requires Block(heap, s, addr, size) && 1 <= size
    ensures Lookup(heap.pm.Contents, addr / PAGE_SIZE) == s && LargeOwned(heap, addr)
  {
    assert addr / PAGE_SIZE == s.startPage;
  }

  /**
   * dealloc: nothing for zero bytes or a page the map does not know; the
   * span's own size class (not the caller's size) picks the small tiers;
   * a span of class 0 goes back to the page heap.
   */
  method Dealloc(heap: PageHeap, addr: nat, size: nat) returns (route: FreeRoute)
    requires heap.Valid() && LargeOwned(heap, addr)
    modifies heap, heap.pm, heap.pm.root, heap.slab, heap.free, heap.inUse
    ensures heap.Valid()
    ensures route == Skip <==> size == 0 || old(Lookup(heap.pm.Contents, addr / PAGE_SIZE)) == null
    ensures route.SmallFree? ==> route.cls != 0 && route.cls == old(Lookup(heap.pm.Contents, addr / PAGE_SIZE).sizeClass)
    ensures route == LargeFree ==> old(Lookup(heap.pm.Contents, addr / PAGE_SIZE).sizeClass) == 0
    ensures route == LargeFree ==> heap.inUse == old(heap.inUse) - {old(Lookup(heap.pm.Contents, addr / PAGE_SIZE))}
    ensures route != LargeFree ==> heap.inUse == old(heap.inUse)
  {
    if size == 0 {
      return Skip;
    }
    var pageId := addr / PAGE_SIZE;
    var span := heap.pm.Get(pageId);
    if span == null {
      return Skip;
    }
    var sc := span.sizeClass;
    if sc != 0 {
      return SmallFree(sc);
    }
    ghost var m, left, right := heap.DeallocateSpan(span);
    route := LargeFree;
  }

  /** A large block allocated and then deallocated leaves the heap's handed-out spans as they were. */
  method LargeRoundTrip(heap: PageHeap, size: nat, align: nat) returns (route: Option<FreeRoute>)
    requires heap.Valid() && 1 <= size && IsPow2(align)
    modifies heap, heap.pm, heap.pm.root, heap.slab, heap.os, heap.slab.freeList, heap.free, heap.inUse
    ensures heap.Valid() && heap.inUse == old(heap.inUse)
    ensures route.Some? ==> route.value == LargeFree
  {
    var res;
    ghost var span;
    res, span := AllocLarge(heap, size, align);
    if res.None? {
      return None;
    }
    BlockFreeable(heap, span, res.value, size);
    var r := Dealloc(heap, res.value, size);
    route := Some(r);
  }

  // ---------------------------------------------------------------------
  // The central tier used directly (no per-thread cache, or a thread whose
  // cache is gone)
  // ---------------------------------------------------------------------

  /** alloc_from_central: one object from the class's central list, null when it has none to give. */
  method AllocFromCentral(list: CentralFreeLists.CentralFreeList, heap: PageHeap) returns (obj: Option<nat>)
    requires list.Linked(heap) && 1 <= list.sizeClass
    modifies list, list.nonempty, list.spans, heap, heap.pm, heap.pm.root, heap.slab, heap.os, heap.slab.freeList, heap.free
    ensures list.Linked(heap)
    ensures obj.None? ==> list.Out() == old(list.Out()) && list.nonempty.Items == []
    ensures obj.Some? ==> obj.value !in old(list.Out()) && list.Out() == old(list.Out()) + {obj.value}
    ensures forall t :: t in list.spans ==> t in old(list.spans) || t in old(heap.free) || t in old(heap.slab.freeList) || fresh(t)
    ensures forall t :: t in heap.free ==> t in old(heap.free) || t in old(heap.slab.freeList) || fresh(t)
  {
    hide CentralViews.Fine, SpanList.Valid, CentralViews.OutOf, CentralFreeLists.CoupledOn, CentralFreeLists.CentralFreeList.Valid;
    hide CentralFreeLists.CentralFreeList.Coherent, CentralFreeLists.CentralFreeList.Linked;
    hide PageHeap.Valid, Good, PageHeap.Coupled, PageMap.Valid;
    var count, objs := list.RemoveRange(1, heap);
    if count == 0 {
      return None;
    }
    assert objs == [objs[0]];
    obj := Some(objs[0]);
  }

  /** dealloc_to_central: the object goes back on its class's central list as a chain of one. */
  method DeallocToCentral(list: CentralFreeLists.CentralFreeList, obj: nat, heap: PageHeap)
    requires list.Linked(heap) && obj in list.Out()
    modifies list, list.nonempty, list.spans, heap, heap.pm, heap.pm.root, heap.slab, heap.free
    ensures list.Linked(heap) && list.Out() == old(list.Out()) - {obj}
    ensures list.nonempty.Items != []
  {
    hide CentralViews.Fine, SpanList.Valid, CentralViews.OutOf, CentralFreeLists.CoupledOn, CentralFreeLists.CentralFreeList.Valid;
    hide CentralFreeLists.CentralFreeList.Coherent, CentralFreeLists.CentralFreeList.Linked;
    hide PageHeap.Valid, Good, PageHeap.Coupled, PageMap.Valid;
    assert CentralViews.NoDup([obj]);
    assert CentralFreeLists.Elems([obj]) == {obj};
    list.InsertRange([obj], 1, heap);
    assert [obj][..CentralFreeLists.Min(1, 1)] == [obj];
  }

  /** An object taken from the central tier and handed back leaves the list's outstanding set as it was. */
  method CentralRoundTrip(list: CentralFreeLists.CentralFreeList, heap: PageHeap) returns (got: Option<nat>)
    requires list.Linked(heap) && 1 <= list.sizeClass
    modifies list, list.nonempty, list.spans, heap, heap.pm, heap.pm.root, heap.slab, heap.os, heap.slab.freeList, heap.free
    ensures list.Linked(heap) && list.Out() == old(list.Out())
  {
    hide CentralViews.Fine, SpanList.Valid, CentralViews.OutOf, CentralFreeLists.CoupledOn, CentralFreeLists.CentralFreeList.Valid;
    hide CentralFreeLists.CentralFreeList.Coherent, CentralFreeLists.CentralFreeList.Linked;
    hide PageHeap.Valid, Good, PageHeap.Coupled, PageMap.Valid;
    got := AllocFromCentral(list, heap);
    if got.Some? {
      DeallocToCentral(list, got.value, heap);
    }
  }

  // ---------------------------------------------------------------------
  // realloc
  // ---------------------------------------------------------------------

  /** What realloc reads from the span found at the old pointer's page. */
  datatype SpanFacts = SpanFacts(sizeClass: nat, numPages: nat)

  /**
   * old_usable: the object size of the span's class, all of a class-0
   * span's pages, or, when the page map knows no span there, the size the
   * caller passed.
   */
  function OldUsable(found: Option<SpanFacts>, layoutSize: nat): (u: nat)
    requires found.Some? ==> found.value.sizeClass < NUM_SIZE_CLASSES
    ensures found.None? ==> u == layoutSize
    ensures found.Some? ==> u % 8 == 0
    ensures found.Some? && found.value.sizeClass == 0 ==> u % PAGE_SIZE == 0
  {
    match found
    case None => layoutSize
    case Some(f) =>
      if f.sizeClass != 0 then
        RowFacts(f.sizeClass);
        ClassToSize(f.sizeClass)
      else f.numPages * PAGE_SIZE
  }

  /** What realloc does. */
  datatype ReallocStep =
    | Fresh(size: nat, align: nat)             // a plain alloc of the new size, old alignment
    | Release(ret: nat)                        // dealloc of the old block; the dangling align comes back
    | Stay                                     // the old pointer comes back unchanged
    | Grow(size: nat, align: nat, copy: nat)   // alloc; when it succeeds, copy `copy` bytes and dealloc the old block

  /**
   * realloc's decision: a null or zero-sized old block is a plain alloc, a
   * zero new size a dealloc, and otherwise the block stays when the new
   * size fits what it really holds and moves when it does not.
   */
  function PlanRealloc(isNull: bool, oldSize: nat, align: nat, newSize: nat, found: Option<SpanFacts>): (r: ReallocStep)
    requires found.Some? ==> found.value.sizeClass < NUM_SIZE_CLASSES
    ensures r.Fresh? <==> isNull || oldSize == 0
    ensures r.Fresh? ==> r.size == newSize && r.align == align
    ensures r.Release? <==> !isNull && oldSize != 0 && newSize == 0
    ensures r.Release? ==> r.ret == align
    ensures r.Grow? ==> r.size == newSize && r.align == align && r.copy < newSize
  {
    if isNull || oldSize == 0 then Fresh(newSize, align)
    else if newSize == 0 then Release(align)
    else
      var usable := OldUsable(found, oldSize);
      if newSize <= usable then Stay
      else Grow(newSize, align, if usable < newSize then usable else newSize)
  }

  /**
   * The old pointer is kept exactly when there is an old block, the new size
   * is not zero and it fits in what the block really holds; a move copies
   * all of the old block, which is smaller than the new size.
   */
  lemma ReallocInPlace(isNull: bool, oldSize: nat, align: nat, newSize: nat, found: Option<SpanFacts>)
    requires found.Some? ==> found.value.sizeClass < NUM_SIZE_CLASSES
    ensures PlanRealloc(isNull, oldSize, align, newSize, found) == Stay <==>
      !isNull && oldSize != 0 && 0 < newSize <= OldUsable(found, oldSize)
    ensures PlanRealloc(isNull, oldSize, align, newSize, found).Grow? ==>
      PlanRealloc(isNull, oldSize, align, newSize, found) == Grow(newSize, align, OldUsable(found, oldSize))
      && OldUsable(found, oldSize) < newSize
  {
  }

  /**
   * The span found at a block allocated for oldSize bytes holds at least
   * that many: the class alloc picked, or the pages alloc_large took.
   */
  predicate Describes(found: Option<SpanFacts>, oldSize: nat, align: nat)
  {
    match found
    case None => true
    case Some(f) =>
      match RouteAlloc(oldSize, align)
      case Small(c) => f.sizeClass == c
      case Large => f.sizeClass == 0 && f.numPages >= PagesFor(oldSize)
      case Dangling(_) => false
  }

  /**
   * Whatever realloc does with a block alloc handed out, no byte of the old
   * contents that the new size can hold is lost: in place the block holds
   * the new size, and a move copies at least the old size.
   */
  lemma ReallocKeepsContents(oldSize: nat, align: nat, newSize: nat, found: Option<SpanFacts>)
    requires 1 <= oldSize && Describes(found, oldSize, align)
    ensures found.Some? ==> found.value.sizeClass < NUM_SIZE_CLASSES
    ensures found.Some? ==> OldUsable(found, oldSize) >= oldSize
    ensures match PlanRealloc(false, oldSize, align, newSize, if found.Some? then found else None)
      case Stay => newSize <= OldUsable(found, oldSize)
      case Grow(_, _, copy) => copy >= oldSize
      case Release(_) => newSize == 0
      case Fresh(_, _) => false
  {
    if found.Some? && RouteAlloc(oldSize, align).Small? {
      RouteSmall(oldSize, align);
    }
  }

  /**
   * The reason realloc asks the span and not the caller: after an in-place
   * shrink the caller's size is the smaller one, yet growing back to the
   * block's real size still stays in place.
   */
  lemma ShrinkThenGrowStays(oldSize: nat, align: nat, small: nat, newSize: nat, found: Option<SpanFacts>)
    requires found.Some? && found.value.sizeClass < NUM_SIZE_CLASSES
    requires PlanRealloc(false, oldSize, align, small, found) == Stay
    requires small < newSize <= OldUsable(found, oldSize)
    ensures PlanRealloc(false, small, align, newSize, found) == Stay
  {
  }

  // ---------------------------------------------------------------------
  // The thread-local cache slot of the nightly build
  // ---------------------------------------------------------------------

  datatype TlsState = Uninitialized | Active | Destroyed

  /** The tier a small request is served from. */
  datatype SmallTier = ThreadCacheTier | InitThenThreadCache | CentralTier

  datatype TlsEvent = AllocSmall | DeallocSmall | ThreadExit

  /** alloc_small / alloc_small_slow: an uninitialised slot is initialised first; a destroyed one goes to the central tier. */
  function AllocTier(s: TlsState): SmallTier
  {
    match s
    case Active => ThreadCacheTier
    case Uninitialized => InitThenThreadCache
    case Destroyed => CentralTier
  }

  /** dealloc_small: only an active slot's cache takes the object; it never initialises the slot. */
  function DeallocTier(s: TlsState): SmallTier
  {
    if s == Active then ThreadCacheTier else CentralTier
  }

  /** The slot's state after an event: tc_init marks it active; the exit guard destroys an active one. */
  function Next(s: TlsState, e: TlsEvent): TlsState
  {
    match e
    case AllocSmall => if s == Uninitialized then Active else s
    case DeallocSmall => s
    case ThreadExit => if s == Active then Destroyed else s
  }

  /** Whether the event flushes the thread cache back to the shared tiers. */
  predicate Flushes(s: TlsState, e: TlsEvent)
  {
    e == ThreadExit && s == Active
  }

  function Final(s: TlsState, es: seq<TlsEvent>): TlsState
    decreases |es|
  {
    if es == [] then s else Final(Next(s, es[0]), es[1..])
  }

  function FlushCount(s: TlsState, es: seq<TlsEvent>): nat
    decreases |es|
  {
    if es == [] then 0 else (if Flushes(s, es[0]) then 1 else 0) + FlushCount(Next(s, es[0]), es[1..])
  }

  /** A thread's cache is flushed at most once, and never once the slot is destroyed. */
  lemma {:induction false} FlushAtMostOnce(s: TlsState, es: seq<TlsEvent>)
    ensures FlushCount(s, es) <= (if s == Destroyed then 0 else 1)
    ensures FlushCount(s, es) == 1 ==> Final(s, es) == Destroyed
    decreases |es|
  {
    if es != [] {
      FlushAtMostOnce(Next(s, es[0]), es[1..]);
      if Flushes(s, es[0]) {
        DestroyedStays(es[1..]);
      }
    }
  }

  /** A destroyed slot stays destroyed and sends every small request to the central tier. */
  lemma {:induction false} DestroyedStays(es: seq<TlsEvent>)
    ensures Final(Destroyed, es) == Destroyed
    ensures forall i :: 0 <= i < |es| ==> AllocTier(Final(Destroyed, es[..i])) == CentralTier
  {
    if es != [] {
      DestroyedStays(es[1..]);
      forall i | 0 <= i < |es|
        ensures AllocTier(Final(Destroyed, es[..i])) == CentralTier
      {
        if i > 0 {
          assert es[..i][1..] == es[1..][..i - 1];
        }
      }
    }
  }

  /** The thread-local slot: its state field is what the fast paths test. */
  class TlsSlot {
    var state: TlsState

    constructor ()
      ensures state == Uninitialized
    {
      state := Uninitialized;
    }

    /** alloc_small: picks the tier, initialising the slot first when it never was. */
    method EnterAllocSmall() returns (tier: SmallTier)
      modifies this
      ensures tier == AllocTier(old(state)) && state == Next(old(state), AllocSmall)
      ensures tier == ThreadCacheTier || tier == InitThenThreadCache <==> state == Active
    {
      if state == Active {
        return ThreadCacheTier;
      }
      if state == Uninitialized {
        state := Active;
        return InitThenThreadCache;
      }
      tier := CentralTier;
    }

    /** dealloc_small: picks the tier and leaves the slot as it is. */
    method EnterDeallocSmall() returns (tier: SmallTier)
      ensures tier == DeallocTier(state)
      ensures tier == ThreadCacheTier <==> state == Active
    {
      if state == Active {
        return ThreadCacheTier;
      }
      tier := CentralTier;
    }

    /** The exit guard and tc_destroy: an active slot is marked destroyed before its cache is flushed. */
    method Destroy() returns (flush: bool)
      modifies this
      ensures flush <==> old(state) == Active
      ensures state == Next(old(state), ThreadExit) && state != Active
    {
      flush := false;
      if state == Active {
        state := Destroyed;
        flush := true;
      }
    }
  }
}
