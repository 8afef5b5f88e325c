/**
 * Spans (runs of contiguous pages), the doubly linked SpanList that the page
 * heap and the central free lists thread through them, and the slab that
 * hands out Span structs themselves.
 */
module Spans {
  import opened Config
  import opened Platform

  /** Free in the page heap, or in use (holding small objects or one large block). */
  datatype SpanState = Free | InUse

  /** size_of::<Span>() for the repr(C) layout on a 64-bit target: eight 8-byte words (three usize fields; the u8 state and allocated_count sharing one; total_count padded to one; three pointers). */
  const SPAN_SIZE: nat := 64
  /** align_of::<Span>(). */
  const SPAN_ALIGN: nat := 8

  class Span {
    /** Where this struct lives in a slab page: the Span pointer itself. */
    const addr: nat
    var startPage: nat
    var numPages: nat
    var sizeClass: nat
    var state: SpanState
    var allocatedCount: nat
    var totalCount: nat
    /** The intrusive FreeObject chain inside the span's memory, as the addresses of its nodes, head first. */
    var freelist: seq<nat>
    var prev: Span?
    var next: Span?
    /** The objects of this span that its central free list has handed out and not yet taken back. */
    ghost var out: set<nat>

    /** A struct whose bytes are all zero. */
    ghost predicate Zeroed()
      reads this
    {
      && startPage == 0 && numPages == 0 && sizeClass == 0 && state == Free
      && allocatedCount == 0 && totalCount == 0 && freelist == []
      && prev == null && next == null
    }

    constructor (addr: nat)
      ensures this.addr == addr && Zeroed()
    {
      this.addr := addr;
      startPage := 0;
      numPages := 0;
      sizeClass := 0;
      state := Free;
      allocatedCount := 0;
      totalCount := 0;
      freelist := [];
      prev := null;
      next := null;
      out := {};
    }

    /** Base address of the span's memory: page-aligned, and its page is startPage. */
    function StartAddr(): (a: nat)
      reads this`startPage
      ensures a % PAGE_SIZE == 0 && a / PAGE_SIZE == startPage
    {
      PageAddr(startPage)
    }

    /** Bytes covered: whole pages only. */
    function ByteSize(): (b: nat)
      reads this`numPages
      ensures b % PAGE_SIZE == 0 && b / PAGE_SIZE == numPages
    {
      PageAddr(numPages)
    }

    /** One past the last page of the span. */
    function EndPage(): (e: nat)
      reads this`startPage, this`numPages
      ensures e - startPage == numPages
    {
      startPage + numPages
    }

    /** A byte lies in the span's memory exactly when its page lies in [startPage, EndPage()). */
    lemma ContainsAddr(a: nat)
      ensures StartAddr() <= a < StartAddr() + ByteSize() <==> startPage <= a / PAGE_SIZE < EndPage()
    {
      PageOfAddr(a, startPage, numPages);
    }
  }

  /** page << PAGE_SHIFT. */
  function PageAddr(page: nat): (a: nat)
    ensures a % PAGE_SIZE == 0 && a / PAGE_SIZE == page
  {
    page * PAGE_SIZE
  }

  lemma {:induction false} PageOfAddr(a: nat, start: nat, n: nat)
    ensures PageAddr(start) <= a < PageAddr(start) + PageAddr(n) <==> start <= a / PAGE_SIZE < start + n
  {
    var p := a / PAGE_SIZE;
    assert p * PAGE_SIZE <= a < p * PAGE_SIZE + PAGE_SIZE;
    assert PageAddr(start) + PageAddr(n) == (start + n) * PAGE_SIZE;
    if start <= p < start + n {
      assert start * PAGE_SIZE <= p * PAGE_SIZE;
      assert (p + 1) * PAGE_SIZE <= (start + n) * PAGE_SIZE;
    }
    if p < start {
      assert (p + 1) * PAGE_SIZE <= start * PAGE_SIZE;
    }
    if p >= start + n {
      assert (start + n) * PAGE_SIZE <= p * PAGE_SIZE;
    }
  }

  /** Position of the first occurrence of x in xs. */
  function IndexOf(xs: seq<Span>, x: Span): (i: nat)
    requires x in xs
    ensures i < |xs| && xs[i] == x
    ensures forall j :: 0 <= j < i ==> xs[j] != x
  {
    if xs[0] == x then 0 else 1 + IndexOf(xs[1..], x)
  }

  /** The prev/next fields of the spans in xs chain them in order, with null at both ends. */
  ghost predicate Linked(xs: seq<Span>)
    reads xs`prev, xs`next
  {
    && (xs != [] ==> xs[0].prev == null && xs[|xs| - 1].next == null)
    && (forall i :: 0 <= i < |xs| - 1 ==> xs[i].next == xs[i + 1])
    && (forall i :: 0 < i < |xs| ==> xs[i].prev == xs[i - 1])
  }

  /** The span before index i, or null at the front. */
  function Before(xs: seq<Span>, i: nat): (p: Span?)
    requires i < |xs|
    ensures p != null ==> 0 < i && p == xs[i - 1]
  {
    if i == 0 then null else xs[i - 1]
  }

  /** The span after index i, or null at the back. */
  function After(xs: seq<Span>, i: nat): (n: Span?)
    requires i < |xs|
    ensures n != null ==> i + 1 < |xs| && n == xs[i + 1]
  {
    if i + 1 == |xs| then null else xs[i + 1]
  }

  /** The spans in `xs` without the one at index i, in order. */
  function RemoveAt(xs: seq<Span>, i: nat): (r: seq<Span>)
    requires i < |xs|
    ensures |r| == |xs| - 1
    ensures forall k :: 0 <= k < |r| ==> r[k] == xs[if k < i then k else k + 1]
  {
    seq(|xs| - 1, k requires 0 <= k < |xs| - 1 => xs[if k < i then k else k + 1])
  }

  /** The spans in `xs`, with the first occurrence of `x` taken out. */
  function Without(xs: seq<Span>, x: Span): (r: seq<Span>)
    ensures x !in xs ==> r == xs
    ensures x in xs ==> |r| == |xs| - 1
  {
    if x in xs then RemoveAt(xs, IndexOf(xs, x)) else xs
  }

  /** No span occurs twice. */
  predicate Distinct(xs: seq<Span>)
  {
    forall i, j :: 0 <= i < j < |xs| ==> xs[i] != xs[j]
  }

  /** Putting a new span in front keeps a list duplicate-free. */
  lemma DistinctCons(s: Span, xs: seq<Span>)
    requires Distinct(xs) && s !in xs
    ensures Distinct([s] + xs)
  {
    forall i, j | 0 <= i < j < |[s] + xs|
      ensures ([s] + xs)[i] != ([s] + xs)[j]
    {
      if i > 0 {
        assert ([s] + xs)[i] == xs[i - 1];
      }
      assert ([s] + xs)[j] == xs[j - 1];
    }
  }

  /** A span list: `head` and `count`, with Items as the order the next pointers visit. */
  class SpanList {
    var head: Span?
    var count: nat
    ghost var Items: seq<Span>

    /** The links are a well-formed doubly linked list over Items, and count is its length. */
    ghost predicate Valid()
      reads this, Items`prev, Items`next
    {
      && count == |Items|
      && head == (if Items == [] then null else Items[0])
      && Distinct(Items)
      && Linked(Items)
    }

    constructor ()
      ensures Valid() && Items == [] && count == 0
    {
      head := null;
      count := 0;
      Items := [];
    }

    /** count is the number of spans listed. */
    lemma Sized()
      requires Valid()
      ensures count == |Items|
    {
    }

    /** is_empty tests the head pointer; that agrees with the count. */
    predicate IsEmpty()
      requires Valid()
      reads this, Items`prev, Items`next
      ensures IsEmpty() <==> count == 0
      ensures IsEmpty() <==> Items == []
    {
      head == null
    }

    /** push: the span becomes the head, with no predecessor. */
    method Push(s: Span)
      requires Valid() && s !in Items
      modifies this, s`prev, s`next, if head == null then {} else {head}`prev
      ensures Valid()
      ensures Items == [s] + old(Items) && count == old(count) + 1
      ensures head == s && s.prev == null && s.next == old(head)
    {
      s.next := head;
      s.prev := null;
      if head != null {
        head.prev := s;
      }
      head := s;
      count := count + 1;
      Items := [s] + Items;
      forall j | 1 <= j < |Items|
        ensures Items[j] == old(Items[j - 1])
        ensures Items[j].next == old(Items[j - 1].next)
      {
      }
    }

    /** remove: unlink `s` from wherever it is; the others keep their order. */
    method Remove(s: Span)
      requires Valid() && s in Items
      modifies this, s`prev, s`next
      modifies if s.prev == null then {} else {s.prev}`next, if s.next == null then {} else {s.next}`prev
      ensures Valid()
      ensures Items == Without(old(Items), s) && count == old(count) - 1
      ensures s.prev == null && s.next == null
      ensures old(s.prev) != null ==> old(s.prev).next == old(s.next)
      ensures old(s.next) != null ==> old(s.next).prev == old(s.prev)
    {
      ghost var i := IndexOf(Items, s);
      WithoutAt(Items, i);
      var p, n := s.prev, s.next;
      assert p == if i == 0 then null else Items[i - 1];
      assert n == if i == |Items| - 1 then null else Items[i + 1];
      if p == null {
        head := n;
      }
      Unlink(s, p, n);
      count := count - 1;
      Items := RemoveAt(Items, i);
      RemovedValid(i);
    }

    /**
     * The list state remove leaves behind is well formed again: the span at
     * index i is gone, its neighbours point at each other, and no other link
     * of the list changed.
     */
    twostate lemma RemovedValid(i: nat)
      requires old(Valid()) && i < old(|Items|)
      requires Items == RemoveAt(old(Items), i) && count == old(count) - 1
      requires head == if i == 0 then After(old(Items), i) else old(head)
      requires i > 0 ==> old(Items[i - 1]).next == After(old(Items), i)
      requires i + 1 < old(|Items|) ==> old(Items[i + 1]).prev == Before(old(Items), i)
      requires forall o :: o in old(Items) && o != Before(old(Items), i) && o != old(Items[i]) ==> o.next == old(o.next)
      requires forall o :: o in old(Items) && o != After(old(Items), i) && o != old(Items[i]) ==> o.prev == old(o.prev)
      ensures Valid()
    {
      var xs := old(Items);
      var p, n := Before(xs, i), After(xs, i);
      WithoutAt(xs, i);
      forall j | 0 < j < |Items|
        ensures Items[j].prev == Items[j - 1]
      {
        if j == i {
          assert Items[j] == n && Items[j - 1] == p;
        } else {
          assert Items[j] == xs[if j < i then j else j + 1] && Items[j] != n;
        }
      }
      forall j | 0 <= j < |Items| - 1
        ensures Items[j].next == Items[j + 1]
      {
        if j + 1 == i {
          assert Items[j] == p && Items[j + 1] == n;
        } else {
          assert Items[j] == xs[if j < i then j else j + 1] && Items[j] != p;
        }
      }
    }

    /** The pointer surgery of remove: p and n now point at each other, s at nothing. */
    static method Unlink(s: Span, p: Span?, n: Span?)
      requires p != s && n != s && (p != null ==> p != n)
      modifies s`prev, s`next, if p == null then {} else {p}`next, if n == null then {} else {n}`prev
      ensures p != null ==> p.next == n
      ensures n != null ==> n.prev == p
      ensures s.prev == null && s.next == null
    {
      if p != null {
        p.next := n;
      }
      if n != null {
        n.prev := p;
      }
      s.prev := null;
      s.next := null;
    }

    /** The head is the first listed span, null when none is. */
    lemma HeadListed()
      requires Valid()
      ensures head == null <==> Items == []
      ensures head != null ==> head == Items[0] && head in Items
    {
    }

    /** A listed span's neighbours are listed too. */
    lemma Neighbours(s: Span)
      requires Valid() && s in Items
      ensures s.prev != null ==> s.prev in Items
      ensures s.next != null ==> s.next in Items
    {
      var i := IndexOf(Items, s);
      if i > 0 {
        assert s.prev == Items[i - 1];
      }
      if i + 1 < |Items| {
        assert s.next == Items[i + 1];
      }
    }

    /** pop: remove and return the head, or null when the list is empty. */
    method Pop() returns (s: Span?)
      requires Valid()
      modifies this, if head == null then {} else {head}`prev, if head == null then {} else {head}`next
      modifies if head == null || head.next == null then {} else {head.next}`prev
      ensures Valid()
      ensures old(Items) == [] ==> s == null && Items == [] && count == old(count)
      ensures old(Items) != [] ==>
        s == old(Items[0]) && Items == old(Items[1..]) && count == old(count) - 1
        && s.prev == null && s.next == null
    {
      s := head;
      if s != null {
        Remove(s);
      }
    }
  }

  /** Taking out the occurrence at index i of a duplicate-free list keeps it duplicate-free. */
  lemma WithoutAt(xs: seq<Span>, i: nat)
    requires Distinct(xs) && i < |xs|
    ensures Without(xs, xs[i]) == RemoveAt(xs, i)
    ensures Distinct(RemoveAt(xs, i))
  {
    var k := IndexOf(xs, xs[i]);
    assert k == i;
    var r := RemoveAt(xs, i);
    forall a, b | 0 <= a < b < |r|
      ensures r[a] != r[b]
    {
      assert r[a] == xs[if a < i then a else a + 1];
      assert r[b] == xs[if b < i then b else b + 1];
    }
  }

  /** Round an address up to SPAN_ALIGN, as `(p + align - 1) & !(align - 1)` does for a power of two. */
  function AlignUp(p: nat): (r: nat)
    ensures r % SPAN_ALIGN == 0 && p <= r < p + SPAN_ALIGN
  {
    (p + SPAN_ALIGN - 1) / SPAN_ALIGN * SPAN_ALIGN
  }

  /**
   * The span-struct slab: recycled structs on a free list (chained through
   * their next field), otherwise bump allocation inside the current 8 KiB slab
   * page, otherwise a fresh slab page from the OS.
   */
  /** A page address is already span-aligned. */
  lemma PageAddrAligned(a: nat)
    requires a % PAGE_SIZE == 0
    ensures AlignUp(a) == a
  {
    assert SPAN_ALIGN == 8 && PAGE_SIZE == 8192;
    var q := a / 8192;
    assert a == 8 * (1024 * q);
    hide AlignUp;
    var r := AlignUp(a);
    assert r == 8 * (r / 8);
  }

  class SpanSlab {
    /** The recycled structs, most recently freed first. */
    var freeList: seq<Span>
    var bumpPtr: nat
    var bumpEnd: nat

    /** The bump pointer stays inside the slab page, and no struct is on the free list twice. */
    ghost predicate Valid()
      reads this
    {
      bumpPtr <= bumpEnd && Distinct(freeList)
    }

    constructor ()
      ensures Valid() && freeList == [] && bumpPtr == 0 && bumpEnd == 0
    {
      freeList := [];
      bumpPtr := 0;
      bumpEnd := 0;
    }

    /** Whether the current slab page has room for one more struct. */
    predicate BumpFits()
      reads this
    {
      AlignUp(bumpPtr) + SPAN_SIZE <= bumpEnd
    }

    /**
     * SpanSlabInner::alloc_span: the most recently freed struct if there is
     * one; else the next aligned slot of the slab page if it fits; else a new
     * slab page (and its first slot), or null when the OS refuses.
     */
    method AllocRaw(os: PageSource) returns (s: Span?)
      requires Valid() && os.Valid()
      modifies this, os
      ensures Valid() && os.Valid()
      ensures old(freeList) != [] ==>
        s == old(freeList[0]) && freeList == old(freeList[1..])
        && bumpPtr == old(bumpPtr) && bumpEnd == old(bumpEnd) && os.nextPage == old(os.nextPage)
      ensures old(freeList) == [] && old(BumpFits()) ==>
        s != null && fresh(s) && s.Zeroed() && s.addr == AlignUp(old(bumpPtr))
        && bumpPtr == s.addr + SPAN_SIZE && bumpEnd == old(bumpEnd)
        && freeList == [] && os.nextPage == old(os.nextPage)
      ensures old(freeList) == [] && !old(BumpFits()) && !old(os.CanAlloc(PAGE_SIZE)) ==>
        s == null && freeList == [] && bumpPtr == old(bumpPtr) && bumpEnd == old(bumpEnd)
        && os.nextPage == old(os.nextPage)
      ensures old(freeList) == [] && !old(BumpFits()) && old(os.CanAlloc(PAGE_SIZE)) ==>
        s != null && fresh(s) && s.Zeroed() && s.addr == PageAddr(old(os.nextPage))
        && bumpPtr == s.addr + SPAN_SIZE && bumpEnd == s.addr + PAGE_SIZE
        && freeList == [] && os.nextPage == old(os.nextPage) + 1
      decreases if freeList != [] || BumpFits() then 0 else 1
    {
      if freeList != [] {
        s := freeList[0];
        freeList := freeList[1..];
        return;
      }
      var aligned := AlignUp(bumpPtr);
      var end := aligned + SPAN_SIZE;
      if end <= bumpEnd {
        bumpPtr := end;
        s := new Span(aligned);
        return;
      }
      var slab := os.PageAlloc(PAGE_SIZE);
      if slab == 0 {
        return null;
      }
      bumpPtr := slab;
      bumpEnd := slab + PAGE_SIZE;
      PageAddrAligned(slab);
      assert BumpFits();
      s := AllocRaw(os);
    }

    /** alloc_span: a struct from the slab with every field cleared, or null. */
    method Alloc(os: PageSource) returns (s: Span?)
      requires Valid() && os.Valid()
      modifies this, os, if freeList == [] then {} else {freeList[0]}
      ensures Valid() && os.Valid() && os.nextPage >= old(os.nextPage)
      ensures s != null ==> s.Zeroed()
      ensures old(freeList) != [] ==> s == old(freeList[0]) && freeList == old(freeList[1..])
      ensures old(freeList) == [] ==> freeList == [] && (s == null || fresh(s))
      ensures old(freeList) == [] ==> (s == null <==> !old(BumpFits()) && !old(os.CanAlloc(PAGE_SIZE)))
      ensures s == null ==> freeList == [] && !BumpFits() && !os.CanAlloc(PAGE_SIZE)
    {
      s := AllocRaw(os);
      if s != null {
        s.startPage := 0;
        s.numPages := 0;
        s.sizeClass := 0;
        s.state := Free;
        s.allocatedCount := 0;
        s.totalCount := 0;
        s.freelist := [];
        s.prev := null;
        s.next := null;
      }
    }

    /** dealloc_span: push the struct onto the free list, linking through its next field. */
    method Dealloc(s: Span)
      requires Valid() && s !in freeList
      modifies this, s`next
      ensures Valid()
      ensures freeList == [s] + old(freeList) && bumpPtr == old(bumpPtr) && bumpEnd == old(bumpEnd)
      ensures s.next == if old(freeList) == [] then null else old(freeList[0])
    {
      s.next := if freeList == [] then null else freeList[0];
      freeList := [s] + freeList;
    }
  }
}
