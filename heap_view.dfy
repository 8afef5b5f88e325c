/**
 * The page heap's bookkeeping as a value: which spans are live, which of
 * them are free (in a list) or in use, each live span's page run and state,
 * the free lists, the page map's entries, a witness owner for every mapped
 * page, how far the OS has handed out pages, and the recycled span structs.
 *
 * `Good` is the heap invariant. Each operation of the page heap moves the
 * view by one of the transitions below, and each transition is proved to
 * keep `Good`. Live spans that are neither free nor in use are "loose": an
 * operation is working on them (popped, being carved, being coalesced).
 */
module HeapViews {
  import opened Config
  import opened Spans
  import opened PageMaps

  /** What the page heap relies on of a live span. */
  datatype SpanInfo = SpanInfo(start: nat, pages: nat, state: SpanState)

  /** Whether page p lies in the run of i. */
  predicate Covers(i: SpanInfo, p: nat)
  {
    i.start <= p < i.start + i.pages
  }

  /** The last page of a run (the start page of an empty one). */
  function Last(i: SpanInfo): (p: nat)
    ensures i.pages >= 1 ==> Covers(i, p) && p + 1 == i.start + i.pages
  {
    if i.pages == 0 then i.start else i.start + i.pages - 1
  }

  /** The page just past a run. */
  function End(i: SpanInfo): nat
  {
    i.start + i.pages
  }

  /** Two runs share no page. */
  predicate Apart(a: SpanInfo, b: SpanInfo)
  {
    a.start + a.pages <= b.start || b.start + b.pages <= a.start
  }

  datatype View = View(
    live: set<Span>,
    free: set<Span>,
    inUse: set<Span>,
    info: map<Span, SpanInfo>,
    lists: seq<seq<Span>>,
    large: seq<Span>,
    contents: map<nat, Span>,
    owner: map<nat, Span>,
    nextPage: nat,
    recycled: seq<Span>)

  /** The live spans not in a list and not handed out. */
  function Loose(v: View): set<Span>
  {
    v.live - v.free - v.inUse
  }

  /** The list a free span of n pages belongs in: exact lists up to MAX_PAGES, the large list above. */
  function ListOf(v: View, n: nat): seq<Span>
    requires |v.lists| == MAX_PAGES + 1
  {
    if n <= MAX_PAGES then v.lists[n] else v.large
  }

  /** Sizes m and n share a list. */
  predicate SameList(m: nat, n: nat)
  {
    m == n || (m > MAX_PAGES && n > MAX_PAGES)
  }

  /** The view with the list for n pages replaced by xs. */
  function WithList(v: View, n: nat, xs: seq<Span>): (w: View)
    requires |v.lists| == MAX_PAGES + 1
    ensures |w.lists| == MAX_PAGES + 1
    ensures forall m: nat :: ListOf(w, m) == if SameList(m, n) then xs else ListOf(v, m)
    ensures w.(lists := v.lists, large := v.large) == v
  {
    if n <= MAX_PAGES then v.(lists := v.lists[n := xs]) else v.(large := xs)
  }

  ghost predicate Sets(v: View)
  {
    && v.free <= v.live && v.inUse <= v.live && v.free !! v.inUse
    && v.live <= v.info.Keys
    && |v.lists| == MAX_PAGES + 1
  }

  /** Every list is duplicate-free and holds exactly the free spans of its size. */
  ghost predicate Listed(v: View)
    requires Sets(v)
  {
    && (forall k, s {:trigger s in v.lists[k]} :: 0 <= k <= MAX_PAGES && s in v.lists[k] ==> s in v.free && v.info[s].pages == k)
    && (forall s {:trigger s in v.large} :: s in v.large ==> s in v.free && v.info[s].pages > MAX_PAGES)
    && (forall s {:trigger s in v.free} :: s in v.free ==> v.info[s].state == Free && s in ListOf(v, v.info[s].pages))
    && (forall k :: 0 <= k <= MAX_PAGES ==> Distinct(v.lists[k]))
    && Distinct(v.large)
  }

  /** Live spans are non-empty, below the OS frontier, pairwise disjoint, and not on the recycle list. */
  ghost predicate Placed(v: View)
    requires Sets(v)
  {
    && (forall s {:trigger s in v.live} :: s in v.live ==> 1 <= v.info[s].pages && v.info[s].start + v.info[s].pages <= v.nextPage)
    && (forall s {:trigger s in v.inUse} :: s in v.inUse ==> v.info[s].state == InUse)
    && (forall s, t {:trigger s in v.live, t in v.live} :: s in v.live && t in v.live && s != t ==> Apart(v.info[s], v.info[t]))
    && (forall s {:trigger s in v.recycled} :: s in v.recycled ==> s !in v.live)
  }

  /**
   * Every mapped page lies in a live span (owner names one); every page of an
   * in-use span and both end pages of a free span are mapped to that span.
   */
  ghost predicate Mapped(v: View)
    requires Sets(v)
  {
    && (forall p {:trigger p in v.contents} :: p in v.contents ==> p in v.owner && v.owner[p] in v.live && Covers(v.info[v.owner[p]], p))
    && (forall s, p {:trigger Covers(v.info[s], p)} :: s in v.inUse && Covers(v.info[s], p) ==> Lookup(v.contents, p) == s)
    && (forall s {:trigger s in v.free} :: s in v.free ==>
          Lookup(v.contents, v.info[s].start) == s && Lookup(v.contents, Last(v.info[s])) == s)
  }

  /** The page heap invariant. */
  ghost predicate Good(v: View)
  {
    Sets(v) && Listed(v) && Placed(v) && Mapped(v)
  }

  /** A live span is a non-empty run below the OS frontier. */
  lemma LiveBounds(v: View, s: Span)
    requires Good(v) && s in v.live
    ensures 1 <= v.info[s].pages && v.info[s].start + v.info[s].pages <= v.nextPage
  {
  }

  /** The empty heap. */
  lemma EmptyGood(contents: map<nat, Span>, nextPage: nat, recycled: seq<Span>)
    requires contents == map[]
    ensures Good(View({}, {}, {}, map[], seq(MAX_PAGES + 1, _ => []), [], contents, map[], nextPage, recycled))
  {
  }

  /** Removing x from a duplicate-free list keeps every other element and no duplicate. */
  lemma WithoutMembers(xs: seq<Span>, x: Span)
    requires Distinct(xs)
    ensures Distinct(Without(xs, x))
    ensures forall y :: y in Without(xs, x) <==> y in xs && y != x
  {
    if x in xs {
      var i := IndexOf(xs, x);
      WithoutAt(xs, i);
      var r := RemoveAt(xs, i);
      forall y | y in xs && y != x
        ensures y in r
      {
        var j := IndexOf(xs, y);
        if j < i {
          assert r[j] == y;
        } else {
          assert r[j - 1] == y;
        }
      }
    }
  }

  /** insert_free: the span joins the free set at the head of its list. */
  function PushFree(v: View, s: Span): (w: View)
    requires |v.lists| == MAX_PAGES + 1 && s in v.info
    ensures |w.lists| == MAX_PAGES + 1
  {
    WithList(v, v.info[s].pages, [s] + ListOf(v, v.info[s].pages)).(free := v.free + {s})
  }

  lemma PushFreeKeeps(v: View, s: Span)
    requires Good(v) && s in Loose(v) && v.info[s].state == Free
    requires Lookup(v.contents, v.info[s].start) == s && Lookup(v.contents, Last(v.info[s])) == s
    ensures Good(PushFree(v, s))
  {
    PushFreeListed(v, s);
  }

  lemma PushFreeListed(v: View, s: Span)
    requires Sets(v) && Listed(v) && s in Loose(v) && v.info[s].state == Free
    ensures Sets(PushFree(v, s)) && Listed(PushFree(v, s))
  {
    var n := v.info[s].pages;
    var w := PushFree(v, s);
    assert w.info == v.info && w.free == v.free + {s} && w.live == v.live && w.inUse == v.inUse;
    assert forall m: nat :: ListOf(w, m) == if SameList(m, n) then [s] + ListOf(v, n) else ListOf(v, m);
    hide PushFree, WithList;
    DistinctCons(s, ListOf(v, n));
    forall k, x | 0 <= k <= MAX_PAGES && x in w.lists[k]
      ensures x in w.free && w.info[x].pages == k
    {
      assert x in ListOf(w, k);
    }
    forall x | x in w.large
      ensures x in w.free && w.info[x].pages > MAX_PAGES
    {
      assert x in ListOf(w, MAX_PAGES + 1);
    }
    forall x | x in w.free
      ensures w.info[x].state == Free && x in ListOf(w, w.info[x].pages)
    {
      if x != s && SameList(w.info[x].pages, n) {
        assert x in ListOf(v, n);
      }
    }
    forall k | 0 <= k <= MAX_PAGES
      ensures Distinct(w.lists[k])
    {
      assert w.lists[k] == ListOf(w, k);
    }
    assert w.large == ListOf(w, MAX_PAGES + 1);
  }

  /** Taking a free span out of its list (pop or remove): it becomes loose. */
  function TakeFree(v: View, s: Span): (w: View)
    requires |v.lists| == MAX_PAGES + 1 && s in v.info
    ensures |w.lists| == MAX_PAGES + 1
  {
    WithList(v, v.info[s].pages, Without(ListOf(v, v.info[s].pages), s)).(free := v.free - {s})
  }

  /** Taking a span off its list changes the lists and the free set and nothing else. */
  lemma TakeFreeFrame(v: View, s: Span)
    requires |v.lists| == MAX_PAGES + 1 && s in v.info
    ensures var w := TakeFree(v, s);
      w.live == v.live && w.inUse == v.inUse && w.info == v.info && w.free == v.free - {s}
  {
  }

  lemma TakeFreeKeeps(v: View, s: Span)
    requires Good(v) && s in v.free
    ensures Good(TakeFree(v, s)) && s in Loose(TakeFree(v, s))
  {
    TakeFreeListed(v, s);
  }

  lemma TakeFreeListed(v: View, s: Span)
    requires Sets(v) && Listed(v) && s in v.free
    ensures Sets(TakeFree(v, s)) && Listed(TakeFree(v, s))
  {
    var n := v.info[s].pages;
    var w := TakeFree(v, s);
    WithoutMembers(ListOf(v, n), s);
    forall k, x | 0 <= k <= MAX_PAGES && x in w.lists[k]
      ensures x in w.free && w.info[x].pages == k
    {
      assert x in ListOf(w, k);
    }
    forall x | x in w.large
      ensures x in w.free && w.info[x].pages > MAX_PAGES
    {
      assert x in ListOf(w, MAX_PAGES + 1);
    }
    forall x | x in w.free
      ensures w.info[x].state == Free && x in ListOf(w, w.info[x].pages)
    {
      if SameList(w.info[x].pages, n) {
        assert x in ListOf(v, n);
      }
    }
    forall k | 0 <= k <= MAX_PAGES
      ensures Distinct(w.lists[k])
    {
      assert w.lists[k] == ListOf(w, k);
    }
    assert w.large == ListOf(w, MAX_PAGES + 1);
  }

  /**
   * carve_span with a remainder: the loose span keeps its first n pages and
   * the struct rem (not live before) takes the rest, free-marked and loose;
   * pages the rest covers are now owned by rem.
   */
  function Split(v: View, s: Span, rem: Span, n: nat): View
    requires s in v.info && n <= v.info[s].pages
  {
    var i := v.info[s];
    v.(live := v.live + {rem},
       info := v.info[s := i.(pages := n)][rem := SpanInfo(i.start + n, i.pages - n, Free)],
       owner := map p | p in v.owner :: if v.owner[p] == s && p >= i.start + n then rem else v.owner[p])
  }

  lemma SplitKeeps(v: View, s: Span, rem: Span, n: nat)
    requires Good(v) && s in Loose(v) && rem !in v.live && rem !in v.recycled && 1 <= n < v.info[s].pages
    ensures Good(Split(v, s, rem, n))
    ensures Loose(Split(v, s, rem, n)) == Loose(v) + {rem}
  {
    var w := Split(v, s, rem, n);
    ListedFrame(v, w);
    SplitPlaced(v, s, rem, n);
    SplitMapped(v, s, rem, n);
  }

  lemma SplitPlaced(v: View, s: Span, rem: Span, n: nat)
    requires Sets(v) && Placed(v) && s in v.live && rem !in v.live && rem !in v.recycled && 1 <= n < v.info[s].pages
    ensures Sets(Split(v, s, rem, n)) && Placed(Split(v, s, rem, n))
  {
    var w := Split(v, s, rem, n);
    forall x, y | x in w.live && y in w.live && x != y
      ensures Apart(w.info[x], w.info[y])
    {
      if x != rem && y != rem && x != s && y != s {
        assert Apart(v.info[x], v.info[y]);
      } else if x == rem && y != s {
        assert Apart(v.info[s], v.info[y]);
      } else if y == rem && x != s {
        assert Apart(v.info[x], v.info[s]);
      } else if x == s && y != rem {
        assert Apart(v.info[s], v.info[y]);
      } else if y == s && x != rem {
        assert Apart(v.info[x], v.info[s]);
      }
    }
  }

  lemma SplitMapped(v: View, s: Span, rem: Span, n: nat)
    requires Sets(v) && Mapped(v) && s in Loose(v) && rem !in v.live && 1 <= n <= v.info[s].pages
    ensures Sets(Split(v, s, rem, n)) && Mapped(Split(v, s, rem, n))
  {
    var w := Split(v, s, rem, n);
    forall p | p in w.contents
      ensures p in w.owner && w.owner[p] in w.live && Covers(w.info[w.owner[p]], p)
    {
      assert Covers(v.info[v.owner[p]], p);
    }
    forall x, p | x in w.inUse && Covers(w.info[x], p)
      ensures Lookup(w.contents, p) == x
    {
      assert Covers(v.info[x], p);
    }
  }

  /** Listed survives any change that leaves the free set, the lists and the free spans' runs alone. */
  lemma ListedFrame(v: View, w: View)
    requires Sets(v) && Listed(v) && Sets(w)
    requires w.free == v.free && w.lists == v.lists && w.large == v.large
    requires forall s :: s in v.free ==> w.info[s] == v.info[s]
    ensures Listed(w)
  {
    forall k, x | 0 <= k <= MAX_PAGES && x in w.lists[k]
      ensures x in w.free && w.info[x].pages == k
    {
      assert x in v.lists[k];
    }
    forall x | x in w.free
      ensures w.info[x].state == Free && x in ListOf(w, w.info[x].pages)
    {
      assert x in ListOf(v, v.info[x].pages);
    }
  }

  /**
   * The page map changed only on pages of the loose span x (register_span or
   * register_span_endpoints on it); pages newly mapped are owned by x.
   */
  function MapLoose(v: View, x: Span, c: map<nat, Span>): View
    requires x in v.info
  {
    v.(contents := c, owner := map p | p in c :: if Covers(v.info[x], p) || p !in v.owner then x else v.owner[p])
  }

  lemma MapLooseKeeps(v: View, x: Span, c: map<nat, Span>)
    requires Good(v) && x in Loose(v)
    requires forall p :: !Covers(v.info[x], p) ==> Lookup(c, p) == Lookup(v.contents, p)
    ensures Good(MapLoose(v, x, c)) && Loose(MapLoose(v, x, c)) == Loose(v)
  {
    var w := MapLoose(v, x, c);
    assert Sets(w) && Placed(w);
    ListedFrame(v, w);
    MapLooseMapped(v, x, c);
  }

  lemma MapLooseMapped(v: View, x: Span, c: map<nat, Span>)
    requires Sets(v) && Placed(v) && Mapped(v) && x in Loose(v)
    requires forall p :: !Covers(v.info[x], p) ==> Lookup(c, p) == Lookup(v.contents, p)
    ensures Sets(MapLoose(v, x, c)) && Mapped(MapLoose(v, x, c))
  {
    var w := MapLoose(v, x, c);
    forall p | p in w.contents
      ensures p in w.owner && w.owner[p] in w.live && Covers(w.info[w.owner[p]], p)
    {
      if !Covers(v.info[x], p) {
        assert Lookup(c, p) == Lookup(v.contents, p);
      }
    }
    forall y, p | y in w.inUse && Covers(w.info[y], p)
      ensures Lookup(w.contents, p) == y
    {
      assert Apart(v.info[x], v.info[y]);
    }
    forall y | y in w.free
      ensures Lookup(w.contents, w.info[y].start) == y && Lookup(w.contents, Last(w.info[y])) == y
    {
      assert Apart(v.info[x], v.info[y]);
    }
  }

  /** A loose span whose every page maps to it is handed out. */
  function MarkInUse(v: View, x: Span): View
  {
    v.(inUse := v.inUse + {x})
  }

  lemma MarkInUseKeeps(v: View, x: Span)
    requires Good(v) && x in Loose(v) && v.info[x].state == InUse
    requires forall p :: Covers(v.info[x], p) ==> Lookup(v.contents, p) == x
    ensures Good(MarkInUse(v, x)) && Loose(MarkInUse(v, x)) == Loose(v) - {x}
  {
  }

  /** An in-use span comes back (deallocate_span): it is loose again. */
  function Release(v: View, x: Span): View
  {
    v.(inUse := v.inUse - {x})
  }

  lemma ReleaseKeeps(v: View, x: Span)
    requires Good(v) && x in v.inUse
    ensures Good(Release(v, x)) && Loose(Release(v, x)) == Loose(v) + {x}
  {
  }

  /** The state of a loose span changes. */
  function Restate(v: View, x: Span, st: SpanState): View
    requires x in v.info
  {
    v.(info := v.info[x := v.info[x].(state := st)])
  }

  lemma RestateKeeps(v: View, x: Span, st: SpanState)
    requires Good(v) && x in Loose(v)
    ensures Good(Restate(v, x, st)) && Loose(Restate(v, x, st)) == Loose(v)
  {
    var w := Restate(v, x, st);
    forall y, p | y in w.inUse && Covers(w.info[y], p)
      ensures Lookup(w.contents, p) == y
    {
      assert Covers(v.info[y], p);
    }
  }

  /**
   * Coalescing: loose a absorbs loose b, which starts where a ends. b stops
   * being live and its pages are owned by a.
   */
  function Absorb(v: View, a: Span, b: Span): View
    requires a in v.info && b in v.info
  {
    v.(live := v.live - {b},
       info := v.info[a := v.info[a].(pages := v.info[a].pages + v.info[b].pages)],
       owner := map p | p in v.owner :: if v.owner[p] == b then a else v.owner[p])
  }

  lemma AbsorbKeeps(v: View, a: Span, b: Span)
    requires Good(v) && a in Loose(v) && b in Loose(v) && a != b
    requires v.info[a].start + v.info[a].pages == v.info[b].start
    ensures Good(Absorb(v, a, b)) && Loose(Absorb(v, a, b)) == Loose(v) - {b}
  {
    var w := Absorb(v, a, b);
    ListedFrame(v, w);
    AbsorbPlaced(v, a, b);
    AbsorbMapped(v, a, b);
  }

  lemma AbsorbPlaced(v: View, a: Span, b: Span)
    requires Sets(v) && Placed(v) && a in v.live && b in Loose(v) && a != b
    requires v.info[a].start + v.info[a].pages == v.info[b].start
    ensures Sets(Absorb(v, a, b)) && Placed(Absorb(v, a, b))
  {
    var w := Absorb(v, a, b);
    forall x, y | x in w.live && y in w.live && x != y
      ensures Apart(w.info[x], w.info[y])
    {
      if x == a {
        assert Apart(v.info[a], v.info[y]) && Apart(v.info[b], v.info[y]);
      } else if y == a {
        assert Apart(v.info[x], v.info[a]) && Apart(v.info[x], v.info[b]);
      } else {
        assert Apart(v.info[x], v.info[y]);
      }
    }
  }

  lemma AbsorbMapped(v: View, a: Span, b: Span)
    requires Sets(v) && Mapped(v) && a in Loose(v) && b in Loose(v) && a != b
    requires v.info[a].start + v.info[a].pages == v.info[b].start
    ensures Sets(Absorb(v, a, b)) && Mapped(Absorb(v, a, b))
  {
    var w := Absorb(v, a, b);
    forall p | p in w.contents
      ensures p in w.owner && w.owner[p] in w.live && Covers(w.info[w.owner[p]], p)
    {
      assert Covers(v.info[v.owner[p]], p);
    }
    forall x, p | x in w.inUse && Covers(w.info[x], p)
      ensures Lookup(w.contents, p) == x
    {
      assert Covers(v.info[x], p);
    }
  }

  /** The OS frontier moved up and the recycle list holds only structs that are not live. */
  function Reback(v: View, nextPage: nat, recycled: seq<Span>): View
  {
    v.(nextPage := nextPage, recycled := recycled)
  }

  lemma RebackKeeps(v: View, nextPage: nat, recycled: seq<Span>)
    requires Good(v) && nextPage >= v.nextPage
    requires forall s :: s in recycled ==> s !in v.live
    ensures Good(Reback(v, nextPage, recycled)) && Loose(Reback(v, nextPage, recycled)) == Loose(v)
  {
  }

  /** A struct that is not live takes a run of pages below the OS frontier that no live span holds. */
  function AddFresh(v: View, s: Span, i: SpanInfo): View
  {
    v.(live := v.live + {s}, info := v.info[s := i])
  }

  lemma AddFreshKeeps(v: View, s: Span, i: SpanInfo)
    requires Good(v) && s !in v.live && s !in v.recycled
    requires 1 <= i.pages && i.start + i.pages <= v.nextPage
    requires forall t :: t in v.live ==> Apart(v.info[t], i)
    ensures Good(AddFresh(v, s, i)) && Loose(AddFresh(v, s, i)) == Loose(v) + {s}
  {
    var w := AddFresh(v, s, i);
    assert Sets(w);
    ListedFrame(v, w);
    AddFreshPlaced(v, s, i);
    AddFreshMapped(v, s, i);
  }

  lemma AddFreshPlaced(v: View, s: Span, i: SpanInfo)
    requires Sets(v) && Placed(v) && s !in v.live && s !in v.recycled
    requires 1 <= i.pages && i.start + i.pages <= v.nextPage
    requires forall t :: t in v.live ==> Apart(v.info[t], i)
    ensures Sets(AddFresh(v, s, i)) && Placed(AddFresh(v, s, i))
  {
    var w := AddFresh(v, s, i);
    forall x, y | x in w.live && y in w.live && x != y
      ensures Apart(w.info[x], w.info[y])
    {
      if x != s && y != s {
        assert Apart(v.info[x], v.info[y]);
      }
    }
  }

  lemma AddFreshMapped(v: View, s: Span, i: SpanInfo)
    requires Sets(v) && Mapped(v) && s !in v.live
    ensures Sets(AddFresh(v, s, i)) && Mapped(AddFresh(v, s, i))
  {
    var w := AddFresh(v, s, i);
    forall p | p in w.contents
      ensures p in w.owner && w.owner[p] in w.live && Covers(w.info[w.owner[p]], p)
    {
      assert Covers(v.info[v.owner[p]], p);
    }
    forall x, p | x in w.inUse && Covers(w.info[x], p)
      ensures Lookup(w.contents, p) == x
    {
      assert Covers(v.info[x], p);
    }
  }

  /**
   * A loose span none of whose pages is mapped keeps only the run of n pages
   * that starts off pages into it; the pages it drops belong to no span.
   */
  function Narrow(v: View, x: Span, off: nat, n: nat): View
    requires x in v.info
  {
    v.(info := v.info[x := v.info[x].(start := v.info[x].start + off, pages := n)])
  }

  lemma NarrowKeeps(v: View, x: Span, off: nat, n: nat)
    requires Good(v) && x in Loose(v) && 1 <= n && off + n <= v.info[x].pages
    requires forall p :: Covers(v.info[x], p) ==> p !in v.contents
    ensures Good(Narrow(v, x, off, n)) && Loose(Narrow(v, x, off, n)) == Loose(v)
  {
    var w := Narrow(v, x, off, n);
    assert Sets(w);
    ListedFrame(v, w);
    forall s, t | s in w.live && t in w.live && s != t
      ensures Apart(w.info[s], w.info[t])
    {
      assert Apart(v.info[s], v.info[t]);
    }
    forall p | p in w.contents
      ensures p in w.owner && w.owner[p] in w.live && Covers(w.info[w.owner[p]], p)
    {
      assert Covers(v.info[v.owner[p]], p);
    }
    forall s, p | s in w.inUse && Covers(w.info[s], p)
      ensures Lookup(w.contents, p) == s
    {
      assert Covers(v.info[s], p);
    }
  }

  /** A free span f ends at page p. */
  ghost predicate FreeEndsAt(v: View, f: Span, p: nat)
  {
    f in v.free && f in v.info && v.info[f].start + v.info[f].pages == p
  }

  /** A free span f starts at page p. */
  ghost predicate FreeStartsAt(v: View, f: Span, p: nat)
  {
    f in v.free && f in v.info && v.info[f].start == p
  }

  /**
   * coalesce_left's lookup: when x is the only loose span, a mapped page just
   * before it maps to a live span that ends exactly at x, free exactly when
   * it is marked free.
   */
  lemma LeftNeighbour(v: View, x: Span, p: nat)
    requires Good(v) && Loose(v) == {x} && p + 1 == v.info[x].start && p in v.contents
    ensures v.contents[p] in v.live && v.contents[p] != x
    ensures v.info[v.contents[p]].start + v.info[v.contents[p]].pages == v.info[x].start
    ensures v.contents[p] in v.free <==> v.info[v.contents[p]].state == Free
  {
    var o := v.owner[p];
    assert Covers(v.info[o], p);
    assert o != x && o !in Loose(v);
    assert Apart(v.info[o], v.info[x]);
    if o in v.free {
      assert Last(v.info[o]) == p;
    }
    assert Lookup(v.contents, p) == o;
  }

  /**
   * coalesce_right's lookup: when x is the only loose span, a mapped page just
   * after it maps to a live span that starts exactly there, free exactly
   * when it is marked free.
   */
  lemma RightNeighbour(v: View, x: Span, p: nat)
    requires Good(v) && Loose(v) == {x} && p == v.info[x].start + v.info[x].pages && p in v.contents
    ensures v.contents[p] in v.live && v.contents[p] != x
    ensures v.info[v.contents[p]].start == p
    ensures v.contents[p] in v.free <==> v.info[v.contents[p]].state == Free
  {
    var o := v.owner[p];
    assert Covers(v.info[o], p);
    assert o != x && o !in Loose(v);
    assert Apart(v.info[o], v.info[x]);
    assert Lookup(v.contents, p) == o;
  }

  /** A free span ending where x starts is what the lookup of the page before x finds, and it is marked free. */
  lemma FreeLeftIsFound(v: View, x: Span)
    requires Good(v) && x in v.live
    ensures forall f :: FreeEndsAt(v, f, v.info[x].start) ==>
      f in v.live && v.info[x].start >= 1 && Lookup(v.contents, v.info[x].start - 1) == f && v.info[f].state == Free
  {
  }

  /** A free span starting where x ends is what the lookup of that page finds, and it is marked free. */
  lemma FreeRightIsFound(v: View, x: Span)
    requires Good(v) && x in v.live
    ensures forall f :: FreeStartsAt(v, f, v.info[x].start + v.info[x].pages) ==>
      f in v.live && Lookup(v.contents, v.info[x].start + v.info[x].pages) == f && v.info[f].state == Free
  {
    var e := v.info[x].start + v.info[x].pages;
    forall f | FreeStartsAt(v, f, e)
      ensures Lookup(v.contents, e) == f
    {
      assert Lookup(v.contents, v.info[f].start) == f;
    }
  }

  /** Marking an in-use span free and loose changes no free span's run: its free neighbours stay what they were. */
  lemma ReclaimNeighbours(v: View, x: Span, w: View)
    requires Good(v) && x in v.inUse && w == Restate(Release(v, x), x, Free)
    ensures forall f, p :: FreeEndsAt(w, f, p) <==> FreeEndsAt(v, f, p)
    ensures forall f, p :: FreeStartsAt(w, f, p) <==> FreeStartsAt(v, f, p)
    ensures forall f :: f in w.free ==> f != x && w.info[f] == v.info[f]
    ensures w.info[x].start == v.info[x].start && End(w.info[x]) == End(v.info[x])
  {
  }

  /**
   * After x's free left neighbour l absorbs it, the free spans starting where
   * x ended are those that started there before, and l ends there.
   */
  lemma LeftMergeKeepsRight(v: View, x: Span, l: Span, nextPage: nat, recycled: seq<Span>)
    requires Good(v) && x in Loose(v) && FreeEndsAt(v, l, v.info[x].start)
    ensures Reback(Absorb(TakeFree(v, l), l, x), nextPage, recycled).info == v.info[l := v.info[l].(pages := v.info[l].pages + v.info[x].pages)]
    ensures forall f :: FreeStartsAt(Reback(Absorb(TakeFree(v, l), l, x), nextPage, recycled), f, End(v.info[x])) <==>
      FreeStartsAt(v, f, End(v.info[x]))
  {
    var w := Reback(Absorb(TakeFree(v, l), l, x), nextPage, recycled);
    var t := TakeFree(v, l);
    assert t.info == v.info && t.free == v.free - {l};
    assert w.free == v.free - {l};
    LiveBounds(v, x);
    forall f
      ensures FreeStartsAt(w, f, End(v.info[x])) <==> FreeStartsAt(v, f, End(v.info[x]))
    {
      if f == l {
        assert v.info[l].start < End(v.info[x]);
      }
    }
  }

  /** After x absorbs the free span rt starting where it ends, x keeps its start and ends where rt ended. */
  lemma RightMergeEnd(v: View, x: Span, rt: Span, nextPage: nat, recycled: seq<Span>)
    requires Good(v) && x in Loose(v) && FreeStartsAt(v, rt, End(v.info[x]))
    ensures Reback(Absorb(TakeFree(v, rt), x, rt), nextPage, recycled).info[x].start == v.info[x].start
    ensures End(Reback(Absorb(TakeFree(v, rt), x, rt), nextPage, recycled).info[x]) == End(v.info[rt])
  {
    LiveBounds(v, x);
    var t := TakeFree(v, rt);
    assert t.info == v.info;
  }

  /** Every live span is a non-empty run below the OS frontier, and no recycled struct is live. */
  lemma Frontier(v: View)
    requires Good(v)
    ensures forall t :: t in v.live ==> t in v.info && 1 <= v.info[t].pages && v.info[t].start + v.info[t].pages <= v.nextPage
    ensures forall t :: t in v.recycled ==> t !in v.live
    ensures v.inUse <= v.live && v.free <= v.live && v.free !! v.inUse
  {
  }

  /** A live span shares no page with any other live span. */
  lemma LiveApart(v: View, s: Span)
    requires Good(v) && s in v.live
    ensures s in v.info && forall t :: t in v.live && t != s ==> t in v.info && Apart(v.info[t], v.info[s])
  {
  }

  /** Two different in-use spans share no page. */
  lemma InUseApart(v: View, s: Span, t: Span)
    requires Good(v) && s in v.inUse && t in v.inUse && s != t
    ensures s in v.info && t in v.info && Apart(v.info[s], v.info[t])
  {
  }

  /** Every page of an in-use span maps to it. */
  lemma InUseMapped(v: View, x: Span)
    requires Good(v) && x in v.inUse
    ensures x in v.live && x !in v.free && x in v.info && v.info[x].state == InUse
    ensures forall p :: Covers(v.info[x], p) ==> Lookup(v.contents, p) == x
  {
  }

  /** What the lists say about their spans. */
  lemma ListFacts(v: View)
    requires Good(v)
    ensures |v.lists| == MAX_PAGES + 1
    ensures forall k, t :: 0 <= k <= MAX_PAGES && t in v.lists[k] ==> t in v.free && t in v.info && v.info[t].pages == k
    ensures forall t :: t in v.large ==> t in v.free && t in v.live && t in v.info && v.info[t].pages <= v.nextPage
    ensures forall k :: 0 <= k <= MAX_PAGES ==> Distinct(v.lists[k])
  {
  }

  /** Popping the head of a duplicate-free list is taking that span out. */
  lemma PopIsWithout(xs: seq<Span>)
    requires Distinct(xs) && xs != []
    ensures Without(xs, xs[0]) == xs[1..]
  {
    WithoutAt(xs, 0);
    assert RemoveAt(xs, 0) == xs[1..];
  }

  /** Some span of xs has at least n pages. */
  ghost predicate AnyFit(xs: seq<Span>, info: map<Span, SpanInfo>, n: nat)
  {
    exists t :: t in xs && t in info && info[t].pages >= n
  }

  /**
   * b is find_best_large_span's answer for n: a span of xs with at least n
   * pages, no span of xs fits more tightly, and no earlier span fits as tightly.
   */
  ghost predicate BestFit(xs: seq<Span>, info: map<Span, SpanInfo>, n: nat, b: Span)
  {
    && b in xs && b in info && info[b].pages >= n
    && (forall t :: t in xs && t in info && info[t].pages >= n ==> info[b].pages <= info[t].pages)
    && (forall j :: 0 <= j < IndexOf(xs, b) && xs[j] in info && info[xs[j]].pages >= n ==> info[xs[j]].pages > info[b].pages)
  }
}
