/**
 * The page map: a three-level radix tree from page id to the Span that
 * covers it. A 35-bit page id splits into a 12-bit root index, a 12-bit mid
 * index and an 11-bit leaf index; the root array always exists, mid and leaf
 * nodes are created the first time a page under them is set.
 */
module PageMaps {
  import opened Spans
  import opened Wrappers
  import Platform

  const ROOT_BITS: nat := 12
  const MID_BITS: nat := 12
  const LEAF_BITS: nat := 11

  const ROOT_LEN: nat := 4096
  const MID_LEN: nat := 4096
  const LEAF_LEN: nat := 2048

  /** 1 << ROOT_SHIFT, where ROOT_SHIFT = LEAF_BITS + MID_BITS = 23. */
  const ROOT_SPAN: nat := 0x80_0000

  /** page_id >> 23. */
  function RootIndex(p: nat): nat
  {
    p / ROOT_SPAN
  }

  /** (page_id >> 11) & MID_MASK. */
  function MidIndex(p: nat): (m: nat)
    ensures m < MID_LEN
  {
    (p / LEAF_LEN) % MID_LEN
  }

  /** page_id & LEAF_MASK. */
  function LeafIndex(p: nat): (l: nat)
    ensures l < LEAF_LEN
  {
    p % LEAF_LEN
  }

  /** The three indices put back together give the page id; the root index fits exactly for ids below 2^35. */
  lemma {:induction false} SplitRecombines(p: nat)
    ensures RootIndex(p) * ROOT_SPAN + MidIndex(p) * LEAF_LEN + LeafIndex(p) == p
    ensures RootIndex(p) < ROOT_LEN <==> p < Platform.PAGE_ID_LIMIT
  {
    var hi := p / LEAF_LEN;
    assert hi * LEAF_LEN + LeafIndex(p) == p;
    assert RootIndex(p) == hi / MID_LEN by {
      assert p == (hi / MID_LEN * MID_LEN + hi % MID_LEN) * LEAF_LEN + p % LEAF_LEN;
      assert p == hi / MID_LEN * ROOT_SPAN + (hi % MID_LEN * LEAF_LEN + p % LEAF_LEN);
      assert hi % MID_LEN * LEAF_LEN + p % LEAF_LEN < ROOT_SPAN;
    }
    assert hi == RootIndex(p) * MID_LEN + MidIndex(p);
    assert RootIndex(p) * ROOT_SPAN == RootIndex(p) * MID_LEN * LEAF_LEN;
  }

  /** Distinct page ids differ in at least one index. */
  lemma SplitInjective(p: nat, q: nat)
    requires p != q
    ensures RootIndex(p) != RootIndex(q) || MidIndex(p) != MidIndex(q) || LeafIndex(p) != LeafIndex(q)
  {
    SplitRecombines(p);
    SplitRecombines(q);
  }

  /** A leaf node: 2048 span pointers, all null when it is created. */
  datatype LeafNode = LeafNode(spans: seq<Span?>)

  /** A mid node: 4096 leaf pointers, all null when it is created. */
  datatype MidNode = MidNode(children: seq<Option<LeafNode>>)

  /** The span a map of pages gives for page p, or null. */
  function Lookup(contents: map<nat, Span>, p: nat): Span?
  {
    if p in contents then contents[p] else null
  }

  /** Two page maps that give the same answer for every page are the same map. */
  lemma LookupSame(a: map<nat, Span>, b: map<nat, Span>)
    requires forall p :: Lookup(a, p) == Lookup(b, p)
    ensures a == b
  {
    forall p | p in a
      ensures p in b && a[p] == b[p]
    {
      assert Lookup(a, p) == a[p];
    }
    forall p | p in b
      ensures p in a
    {
      assert Lookup(b, p) == b[p];
    }
  }

  class PageMap {
    /** The root array of 4096 mid-node pointers; a missing node is None. */
    const root: array<Option<MidNode>>
    /** The page -> span entries that are set (non-null). */
    ghost var Contents: map<nat, Span>

    /** Every node that exists has its full width. */
    ghost predicate Shape()
      reads this, root
    {
      && root.Length == ROOT_LEN
      && (forall r :: 0 <= r < ROOT_LEN && root[r].Some? ==>
            && |root[r].value.children| == MID_LEN
            && forall m :: 0 <= m < MID_LEN && root[r].value.children[m].Some? ==>
                 |root[r].value.children[m].value.spans| == LEAF_LEN)
    }

    /** The tree holds exactly Contents. */
    ghost predicate Valid()
      reads this, root
    {
      Shape() && forall p {:trigger Get(p)} :: Get(p) == Lookup(Contents, p)
    }

    constructor ()
      ensures Valid() && Contents == map[] && fresh(root)
    {
      root := new Option<MidNode>[ROOT_LEN](_ => None);
      Contents := map[];
    }

    /** get: null past the root, under a missing node, or where nothing is set. */
    function Get(p: nat): (s: Span?)
      requires Shape()
      reads this, root
      ensures RootIndex(p) >= ROOT_LEN ==> s == null
      ensures RootIndex(p) < ROOT_LEN && root[RootIndex(p)].None? ==> s == null
      ensures (RootIndex(p) < ROOT_LEN && root[RootIndex(p)].Some?
               && root[RootIndex(p)].value.children[MidIndex(p)].None?) ==> s == null
    {
      var r := RootIndex(p);
      if r >= ROOT_LEN then null
      else
        match root[r]
        case None => null
        case Some(mid) =>
          match mid.children[MidIndex(p)]
          case None => null
          case Some(leaf) => leaf.spans[LeafIndex(p)]
    }

    /**
     * set: the mid and leaf nodes on p's path are created when missing;
     * afterwards page p maps to s (nothing when s is null) and no other page
     * changes.
     */
    method Set(p: nat, s: Span?)
      requires Valid() && p < Platform.PAGE_ID_LIMIT
      modifies this, root
      ensures Valid()
      ensures Contents == if s == null then old(Contents) - {p} else old(Contents)[p := s]
    {
      SplitRecombines(p);
      var r, m, l := RootIndex(p), MidIndex(p), LeafIndex(p);
      var mid := if root[r].Some? then root[r].value else MidNode(seq(MID_LEN, _ => None));
      var leaf := if mid.children[m].Some? then mid.children[m].value else LeafNode(seq(LEAF_LEN, _ => null));
      root[r] := Some(mid.(children := mid.children[m := Some(leaf.(spans := leaf.spans[l := s]))]));
      Contents := if s == null then Contents - {p} else Contents[p := s];
      forall q
        ensures Get(q) == Lookup(Contents, q)
      {
        if q != p {
          SplitInjective(p, q);
          assert old(Get(q)) == Lookup(old(Contents), q);
        }
      }
    }

    /** register_span: every page of the span maps to it; other pages keep their entry. */
    method RegisterSpan(s: Span)
      requires Valid() && s.startPage + s.numPages <= Platform.PAGE_ID_LIMIT
      modifies this, root
      ensures Valid()
      ensures forall q: nat :: s.startPage <= q < s.startPage + s.numPages ==> Lookup(Contents, q) == s
      ensures forall q: nat :: !(s.startPage <= q < s.startPage + s.numPages) ==> Lookup(Contents, q) == Lookup(old(Contents), q)
    {
      var start, count := s.startPage, s.numPages;
      var page := start;
      while page < start + count
        invariant start <= page <= start + count
        invariant Valid()
        invariant forall q: nat :: start <= q < page ==> Lookup(Contents, q) == s
        invariant forall q: nat :: !(start <= q < page) ==> Lookup(Contents, q) == Lookup(old(Contents), q)
      {
        ghost var before := Contents;
        Set(page, s);
        assert forall q: nat :: q != page ==> Lookup(Contents, q) == Lookup(before, q);
        page := page + 1;
      }
    }

    /** register_span_endpoints: only the first and last page; a one-page span sets one page. */
    method RegisterSpanEndpoints(s: Span)
      requires Valid() && 1 <= s.numPages && s.startPage + s.numPages <= Platform.PAGE_ID_LIMIT
      modifies this, root
      ensures Valid()
      ensures Lookup(Contents, s.startPage) == s && Lookup(Contents, s.startPage + s.numPages - 1) == s
      ensures forall q: nat :: q != s.startPage && q != s.startPage + s.numPages - 1 ==>
        Lookup(Contents, q) == Lookup(old(Contents), q)
    {
      var start, count := s.startPage, s.numPages;
      Set(start, s);
      if count > 1 {
        Set(start + count - 1, s);
      }
    }

    /** unregister_span: every page of the span maps to nothing; other pages keep their entry. */
    method UnregisterSpan(s: Span)
      requires Valid() && s.startPage + s.numPages <= Platform.PAGE_ID_LIMIT
      modifies this, root
      ensures Valid()
      ensures forall q: nat :: s.startPage <= q < s.startPage + s.numPages ==> Lookup(Contents, q) == null
      ensures forall q: nat :: !(s.startPage <= q < s.startPage + s.numPages) ==> Lookup(Contents, q) == Lookup(old(Contents), q)
    {
      var start, count := s.startPage, s.numPages;
      var page := start;
      while page < start + count
        invariant start <= page <= start + count
        invariant Valid()
        invariant forall q: nat :: start <= q < page ==> Lookup(Contents, q) == null
        invariant forall q: nat :: !(start <= q < page) ==> Lookup(Contents, q) == Lookup(old(Contents), q)
      {
        ghost var before := Contents;
        Set(page, null);
        assert forall q: nat :: q != page ==> Lookup(Contents, q) == Lookup(before, q);
        page := page + 1;
      }
    }
  }
}
