/**
 * The page heap (back-end): free spans kept in exact-size lists (1..128
 * pages) and one list of larger spans, carved on allocation, coalesced with
 * free neighbours on deallocation, and grown from the OS when nothing fits.
 *
 * The heap's bookkeeping is mirrored in ghost fields; `Snapshot()` reads it
 * as a `HeapViews.View`. Every step below that changes state moves that view
 * by one transition that `HeapViews` proves keeps `Good`, and the operations
 * of the heap are compositions of these steps. Each method body hides the
 * definition of `Good`: the steps carry it from call to call, and the facts
 * a method needs about the view come from the lemmas of `HeapViews`.
 */
module PageHeaps {
  import opened Config
  import opened Platform
  import opened Spans
  import opened PageMaps
  import opened HeapViews

  /** usize::MAX, the starting "best so far" of the best-fit scan. */
  const USIZE_MAX: nat := 0xFFFF_FFFF_FFFF_FFFF

  /** How many pages grow_heap asks the OS for: at least 128 (1 MiB). */
  function GrowPages(n: nat): (g: nat)
    ensures g >= n && g >= 128 && (g == n || g == 128)
  {
    if n > 128 then n else 128
  }

  /** k is the first size from n up whose exact-size list is non-empty. */
  ghost predicate FirstListed(lists: seq<seq<Span>>, n: nat, k: nat)
  {
    n <= k < |lists| && lists[k] != [] && forall j :: n <= j < k ==> lists[j] == []
  }

  /** No exact-size list from n up holds a span. */
  ghost predicate NoneListed(lists: seq<seq<Span>>, n: nat)
  {
    forall k :: n <= k < |lists| ==> lists[k] == []
  }

  /**
   * The free lists after span s of k pages went to the head of its list
   * (the exact list for k up to MAX_PAGES, the large list above); every
   * other list is as it was.
   */
  ghost predicate PushedOn(lists: seq<seq<Span>>, large: seq<Span>, lists0: seq<seq<Span>>, large0: seq<Span>, s: Span, k: nat)
    requires |lists0| == MAX_PAGES + 1
  {
    if k <= MAX_PAGES then lists == lists0[k := [s] + lists0[k]] && large == large0
    else lists == lists0 && large == [s] + large0
  }

  /** The exact-size search: the first non-empty list from n up, or past the end when there is none. */
  method FirstNonEmpty(lists: seq<seq<Span>>, n: nat) returns (k: nat)
    ensures k < |lists| ==> FirstListed(lists, n, k)
    ensures k >= |lists| ==> NoneListed(lists, n)
  {
    k := n;
    while k < |lists| && lists[k] == []
      invariant n <= k && forall j :: n <= j < k && j < |lists| ==> lists[j] == []
      decreases |lists| - k
    {
      k := k + 1;
    }
  }

  class PageHeap {
    /** freeLists[k] holds the free spans of exactly k pages, head first; index 0 is unused. */
    var freeLists: seq<seq<Span>>
    /** Free spans of more than MAX_PAGES pages, head first. */
    var large: seq<Span>
    const pm: PageMap
    const slab: SpanSlab
    const os: PageSource

    ghost var live: set<Span>
    ghost var free: set<Span>
    ghost var inUse: set<Span>
    ghost var info: map<Span, SpanInfo>
    ghost var owner: map<nat, Span>

    /** The bookkeeping as a value. */
    ghost function Snapshot(): View
      reads this, pm, os, slab
    {
      View(live, free, inUse, info, freeLists, large, pm.Contents, owner, os.nextPage, slab.freeList)
    }

    /** Every live span's fields agree with its recorded run and state. */
    ghost predicate Coupled()
      reads this, live`startPage, live`numPages, live`state
    {
      forall s {:trigger s in live} :: s in live ==> s in info && info[s] == SpanInfo(s.startPage, s.numPages, s.state)
    }

    /**
     * The invariant while an operation holds some loose spans. Postconditions
     * spell it out conjunct by conjunct, so that each part is proved alone.
     */
    ghost predicate Inv()
      reads this, live`startPage, live`numPages, live`state, pm, pm.root, os, slab
    {
      pm.Valid() && os.Valid() && slab.Valid() && Coupled() && Good(Snapshot())
    }

    /** The span-struct slab can supply no struct: nothing recycled, no room on its page, and the OS refuses a new page. */
    predicate Exhausted()
      reads slab, os
    {
      slab.freeList == [] && !slab.BumpFits() && !os.CanAlloc(PAGE_SIZE)
    }

    /** The invariant between operations: every live span is free or in use. */
    ghost predicate Valid()
      reads this, live`startPage, live`numPages, live`state, pm, pm.root, os, slab
    {
      Inv() && Loose(Snapshot()) == {}
    }

    constructor (pm: PageMap, slab: SpanSlab, os: PageSource)
      requires pm.Valid() && pm.Contents == map[]
      requires slab.Valid() && os.Valid()
      ensures Valid() && live == {} && free == {} && inUse == {}
      ensures this.pm == pm && this.slab == slab && this.os == os
    {
      freeLists := seq(MAX_PAGES + 1, _ => []);
      large := [];
      this.pm := pm;
      this.slab := slab;
      this.os := os;
      live := {};
      free := {};
      inUse := {};
      info := map[];
      owner := map[];
      EmptyGood(pm.Contents, os.nextPage, slab.freeList);
    }

    // ---- Single steps: each moves the view by one transition. ----

    /** A loose span's state field changes; its record follows. */
    method SetState(s: Span, st: SpanState)
      requires Inv() && s in Loose(Snapshot())
      modifies this, s`state
      ensures pm.Valid() && os.Valid() && slab.Valid() && Coupled() && Good(Snapshot())
      ensures Snapshot() == Restate(old(Snapshot()), s, st) && Loose(Snapshot()) == old(Loose(Snapshot()))
      ensures free == old(free) && freeLists == old(freeLists) && large == old(large)
    {
      hide Good, PageMap.Valid, PageMap.Shape;
      ghost var v := Snapshot();
      RestateKeeps(v, s, st);
      s.state := st;
      info := info[s := info[s].(state := st)];
      assert Snapshot() == Restate(v, s, st);
    }

    /** register_span on a loose span: every page of it maps to it. */
    method RegisterLoose(s: Span)
      requires Inv() && s in Loose(Snapshot())
      modifies this, pm, pm.root
      ensures pm.Valid() && os.Valid() && slab.Valid() && Coupled() && Good(Snapshot())
      ensures Snapshot() == MapLoose(old(Snapshot()), s, pm.Contents) && Loose(Snapshot()) == old(Loose(Snapshot()))
      ensures forall p :: Covers(info[s], p) ==> Lookup(pm.Contents, p) == s
      ensures free == old(free) && freeLists == old(freeLists) && large == old(large)
    {
      hide Good, PageMap.Valid, PageMap.Shape;
      ghost var v := Snapshot();
      LiveBounds(v, s);
      ghost var i := info[s];
      assert i.start == s.startPage && i.pages == s.numPages;
      pm.RegisterSpan(s);
      ghost var w := MapLoose(v, s, pm.Contents);
      MapLooseKeeps(v, s, pm.Contents);
      owner := w.owner;
      assert Snapshot() == w;
    }

    /** unregister_span on a loose span: none of its pages is mapped any more. */
    method UnregisterLoose(s: Span)
      requires Inv() && s in Loose(Snapshot())
      modifies this, pm, pm.root
      ensures pm.Valid() && os.Valid() && slab.Valid() && Coupled() && Good(Snapshot())
      ensures Snapshot() == MapLoose(old(Snapshot()), s, pm.Contents) && Loose(Snapshot()) == old(Loose(Snapshot()))
      ensures forall p :: Covers(info[s], p) ==> p !in pm.Contents
      ensures free == old(free) && live == old(live) && info == old(info) && inUse == old(inUse)
    {
      hide Good, PageMap.Valid, PageMap.Shape;
      ghost var v := Snapshot();
      LiveBounds(v, s);
      ghost var i := info[s];
      assert i.start == s.startPage && i.pages == s.numPages;
      pm.UnregisterSpan(s);
      forall p | Covers(i, p)
        ensures p !in pm.Contents
      {
        assert Lookup(pm.Contents, p) == null;
      }
      ghost var w := MapLoose(v, s, pm.Contents);
      MapLooseKeeps(v, s, pm.Contents);
      owner := w.owner;
      assert Snapshot() == w;
    }

    /** A loose, unmapped span is cut down to the n pages that start off pages into it. */
    method Narrow(s: Span, off: nat, n: nat)
      requires Inv() && s in Loose(Snapshot()) && 1 <= n && off + n <= info[s].pages
      requires forall p :: Covers(info[s], p) ==> p !in pm.Contents
      modifies this, s`startPage, s`numPages
      ensures pm.Valid() && os.Valid() && slab.Valid() && Coupled() && Good(Snapshot())
      ensures Snapshot() == HeapViews.Narrow(old(Snapshot()), s, off, n) && Loose(Snapshot()) == old(Loose(Snapshot()))
      ensures free == old(free) && live == old(live) && inUse == old(inUse)
    {
      hide Good, PageMap.Valid, PageMap.Shape;
      ghost var v := Snapshot();
      NarrowKeeps(v, s, off, n);
      s.startPage := s.startPage + off;
      s.numPages := n;
      info := HeapViews.Narrow(v, s, off, n).info;
      assert Snapshot() == HeapViews.Narrow(v, s, off, n);
    }

    /** register_span_endpoints on a loose span: its first and last pages map to it. */
    method RegisterEnds(s: Span)
      requires Inv() && s in Loose(Snapshot())
      modifies this, pm, pm.root
      ensures pm.Valid() && os.Valid() && slab.Valid() && Coupled() && Good(Snapshot())
      ensures Snapshot() == MapLoose(old(Snapshot()), s, pm.Contents) && Loose(Snapshot()) == old(Loose(Snapshot()))
      ensures Lookup(pm.Contents, info[s].start) == s && Lookup(pm.Contents, Last(info[s])) == s
      ensures free == old(free) && freeLists == old(freeLists) && large == old(large)
      ensures live == old(live) && info == old(info)
    {
      hide Good, PageMap.Valid, PageMap.Shape;
      ghost var v := Snapshot();
      LiveBounds(v, s);
      ghost var i := info[s];
      assert i.start == s.startPage && i.pages == s.numPages;
      pm.RegisterSpanEndpoints(s);
      ghost var w := MapLoose(v, s, pm.Contents);
      MapLooseKeeps(v, s, pm.Contents);
      owner := w.owner;
      assert Snapshot() == w;
    }

    /** A loose span marked in use, with every page mapped to it, is handed out. */
    method MarkHandedOut(s: Span)
      requires Inv() && s in Loose(Snapshot()) && info[s].state == InUse
      requires forall p :: Covers(info[s], p) ==> Lookup(pm.Contents, p) == s
      modifies this
      ensures pm.Valid() && os.Valid() && slab.Valid() && Coupled() && Good(Snapshot())
      ensures Snapshot() == MarkInUse(old(Snapshot()), s) && Loose(Snapshot()) == old(Loose(Snapshot())) - {s}
      ensures free == old(free) && freeLists == old(freeLists) && large == old(large)
    {
      hide Good, PageMap.Valid, PageMap.Shape;
      ghost var v := Snapshot();
      MarkInUseKeeps(v, s);
      inUse := inUse + {s};
      assert Snapshot() == MarkInUse(v, s);
    }

    /** An in-use span comes back: it is loose again. */
    method TakeBack(s: Span)
      requires Inv() && s in inUse
      modifies this
      ensures pm.Valid() && os.Valid() && slab.Valid() && Coupled() && Good(Snapshot())
      ensures Snapshot() == Release(old(Snapshot()), s) && Loose(Snapshot()) == old(Loose(Snapshot())) + {s}
      ensures free == old(free)
    {
      hide Good, PageMap.Valid, PageMap.Shape;
      ghost var v := Snapshot();
      ReleaseKeeps(v, s);
      inUse := inUse - {s};
      assert Snapshot() == Release(v, s);
    }

    /** deallocate_span's first step: the span comes back marked free, its object bookkeeping cleared. */
    method Reclaim(s: Span)
      requires Inv() && s in inUse
      modifies this, s`state, s`sizeClass, s`freelist, s`allocatedCount, s`totalCount
      ensures pm.Valid() && os.Valid() && slab.Valid() && Coupled() && Good(Snapshot())
      ensures Snapshot() == Restate(Release(old(Snapshot()), s), s, Free)
      ensures Loose(Snapshot()) == old(Loose(Snapshot())) + {s}
      ensures s.sizeClass == 0 && s.freelist == [] && s.allocatedCount == 0 && s.totalCount == 0 && free == old(free)
      ensures forall t :: t in old(live) && t != s ==> t in live && info[t] == old(info[t])
    {
      hide Good, Coupled, PageMap.Valid, PageMap.Shape;
      TakeBack(s);
      SetState(s, Free);
      s.sizeClass := 0;
      s.freelist := [];
      s.allocatedCount := 0;
      s.totalCount := 0;
    }

    /** insert_free: the span goes to the head of the list for its size. */
    method InsertFree(s: Span)
      requires Inv() && s in Loose(Snapshot()) && info[s].state == Free
      requires Lookup(pm.Contents, info[s].start) == s && Lookup(pm.Contents, Last(info[s])) == s
      modifies this
      ensures pm.Valid() && os.Valid() && slab.Valid() && Coupled() && Good(Snapshot())
      ensures Snapshot() == PushFree(old(Snapshot()), s) && Loose(Snapshot()) == old(Loose(Snapshot())) - {s}
      ensures free == old(free) + {s}
      ensures live == old(live) && info == old(info)
      ensures PushedOn(freeLists, large, old(freeLists), old(large), s, info[s].pages)
    {
      hide Good, PageMap.Valid, PageMap.Shape;
      ghost var v := Snapshot();
      ListFacts(v);
      PushFreeKeeps(v, s);
      var n := s.numPages;
      if n <= MAX_PAGES {
        freeLists := freeLists[n := [s] + freeLists[n]];
      } else {
        large := [s] + large;
      }
      free := free + {s};
      assert Snapshot() == PushFree(v, s);
    }

    /** SpanList::pop on the list of k-page spans: its head leaves the list and is loose. */
    method PopFree(k: nat) returns (s: Span)
      requires Inv() && k < |freeLists| && freeLists[k] != []
      modifies this
      ensures pm.Valid() && os.Valid() && slab.Valid() && Coupled() && Good(Snapshot())
      ensures s == old(freeLists[k][0]) && s in old(info) && old(info[s].pages) == k
      ensures Snapshot() == TakeFree(old(Snapshot()), s) && Loose(Snapshot()) == old(Loose(Snapshot())) + {s}
      ensures free == old(free) - {s}
    {
      hide Good, PageMap.Valid, PageMap.Shape;
      ghost var v := Snapshot();
      ListFacts(v);
      s := freeLists[k][0];
      PopIsWithout(freeLists[k]);
      TakeFreeKeeps(v, s);
      freeLists := freeLists[k := freeLists[k][1..]];
      free := free - {s};
      assert Snapshot() == TakeFree(v, s);
    }

    /** SpanList::remove on the list a free span is in: it leaves that list and is loose. */
    method Unlist(s: Span)
      requires Inv() && s in free
      modifies this
      ensures pm.Valid() && os.Valid() && slab.Valid() && Coupled() && Good(Snapshot())
      ensures Snapshot() == TakeFree(old(Snapshot()), s) && Loose(Snapshot()) == old(Loose(Snapshot())) + {s}
      ensures free == old(free) - {s}
    {
      hide Good, PageMap.Valid, PageMap.Shape;
      ghost var v := Snapshot();
      ListFacts(v);
      TakeFreeKeeps(v, s);
      var n := s.numPages;
      if n <= MAX_PAGES {
        freeLists := freeLists[n := Without(freeLists[n], s)];
      } else {
        large := Without(large, s);
      }
      free := free - {s};
      assert Snapshot() == TakeFree(v, s);
    }

    /** alloc_span: a struct that is neither live nor on the recycle list, or null once the slab is exhausted. */
    method NewStruct() returns (t: Span?)
      requires Inv()
      modifies slab, os, if slab.freeList == [] then {} else {slab.freeList[0]}
      ensures pm.Valid() && os.Valid() && slab.Valid() && Coupled() && Good(Snapshot())
      ensures Snapshot() == Reback(old(Snapshot()), os.nextPage, slab.freeList) && Loose(Snapshot()) == old(Loose(Snapshot()))
      ensures os.nextPage >= old(os.nextPage)
      ensures slab.freeList == if old(slab.freeList) == [] then [] else old(slab.freeList[1..])
      ensures t != null ==> t !in live && t !in slab.freeList
      ensures t != null ==> (old(slab.freeList) != [] && t == old(slab.freeList[0])) || fresh(t)
      ensures t == null <==> old(Exhausted())
      ensures t == null ==> Exhausted()
      ensures free == old(free)
    {
      hide Good, PageMap.Valid, PageMap.Shape;
      ghost var v := Snapshot();
      Frontier(v);
      t := slab.Alloc(os);
      RebackKeeps(v, os.nextPage, slab.freeList);
      assert Snapshot() == Reback(v, os.nextPage, slab.freeList);
    }

    /** dealloc_span: a struct that is no longer live goes on the recycle list. */
    method FreeStruct(t: Span)
      requires Inv() && t !in live && t !in slab.freeList
      modifies slab, t`next
      ensures pm.Valid() && os.Valid() && slab.Valid() && Coupled() && Good(Snapshot())
      ensures Snapshot() == Reback(old(Snapshot()), os.nextPage, slab.freeList) && Loose(Snapshot()) == old(Loose(Snapshot()))
      ensures slab.freeList == [t] + old(slab.freeList)
      ensures free == old(free)
    {
      hide Good, PageMap.Valid, PageMap.Shape;
      ghost var v := Snapshot();
      Frontier(v);
      slab.Dealloc(t);
      RebackKeeps(v, os.nextPage, slab.freeList);
      assert Snapshot() == Reback(v, os.nextPage, slab.freeList);
    }

    /** carve_span's field writes: rem takes the pages of s past its first n, marked free. */
    method Shorten(s: Span, rem: Span, n: nat)
      requires Inv() && s in Loose(Snapshot()) && rem !in live && rem !in slab.freeList && 1 <= n < info[s].pages
      modifies this, s`numPages, rem`startPage, rem`numPages, rem`state
      ensures pm.Valid() && os.Valid() && slab.Valid() && Coupled() && Good(Snapshot())
      ensures Snapshot() == Split(old(Snapshot()), s, rem, n) && Loose(Snapshot()) == old(Loose(Snapshot())) + {rem}
      ensures free == old(free) && freeLists == old(freeLists) && large == old(large)
    {
      hide Good, PageMap.Valid, PageMap.Shape;
      ghost var v := Snapshot();
      SplitKeeps(v, s, rem, n);
      var total := s.numPages;
      rem.startPage := s.startPage + n;
      rem.numPages := total - n;
      rem.state := Free;
      s.numPages := n;
      ghost var w := Split(v, s, rem, n);
      live, info, owner := w.live, w.info, w.owner;
      assert Snapshot() == w;
    }

    /** Coalescing's field write: a takes over the pages of b, which starts where a ends; b is no longer live. */
    method Merge(a: Span, b: Span)
      requires Inv() && a in Loose(Snapshot()) && b in Loose(Snapshot()) && a != b
      requires info[a].start + info[a].pages == info[b].start
      modifies this, a`numPages
      ensures pm.Valid() && os.Valid() && slab.Valid() && Coupled() && Good(Snapshot())
      ensures Snapshot() == Absorb(old(Snapshot()), a, b) && Loose(Snapshot()) == old(Loose(Snapshot())) - {b}
      ensures free == old(free)
    {
      hide Good, PageMap.Valid, PageMap.Shape;
      ghost var v := Snapshot();
      AbsorbKeeps(v, a, b);
      a.numPages := a.numPages + b.numPages;
      ghost var w := Absorb(v, a, b);
      live, info, owner := w.live, w.info, w.owner;
      assert Snapshot() == w;
    }

    /** A struct that is not live takes a run of pages no live span holds, marked in use (grow_heap's field writes). */
    method Adopt(s: Span, start: nat, pages: nat)
      requires Inv() && s !in live && s !in slab.freeList && 1 <= pages && start + pages <= os.nextPage
      requires forall t :: t in live ==> Apart(info[t], SpanInfo(start, pages, InUse))
      modifies this, s`startPage, s`numPages, s`state
      ensures pm.Valid() && os.Valid() && slab.Valid() && Coupled() && Good(Snapshot())
      ensures Snapshot() == AddFresh(old(Snapshot()), s, SpanInfo(start, pages, InUse))
      ensures Loose(Snapshot()) == old(Loose(Snapshot())) + {s}
      ensures free == old(free) && freeLists == old(freeLists) && large == old(large)
    {
      hide Good, PageMap.Valid, PageMap.Shape;
      ghost var v := Snapshot();
      AddFreshKeeps(v, s, SpanInfo(start, pages, InUse));
      s.startPage := start;
      s.numPages := pages;
      s.state := InUse;
      ghost var w := AddFresh(v, s, SpanInfo(start, pages, InUse));
      live, info := w.live, w.info;
      assert Snapshot() == w;
    }

    /** page_alloc on the heap's behalf: the OS frontier moves up by the pages granted. */
    method MapPages(size: nat) returns (addr: nat)
      requires Inv()
      modifies os
      ensures pm.Valid() && os.Valid() && slab.Valid() && Coupled() && Good(Snapshot())
      ensures Snapshot() == Reback(old(Snapshot()), os.nextPage, slab.freeList) && Loose(Snapshot()) == old(Loose(Snapshot()))
      ensures !old(os.CanAlloc(size)) ==> addr == 0 && os.nextPage == old(os.nextPage)
      ensures old(os.CanAlloc(size)) ==>
        addr != 0 && addr / PAGE_SIZE == old(os.nextPage) && os.nextPage == old(os.nextPage) + PagesFor(size)
      ensures free == old(free)
    {
      hide Good, PageMap.Valid, PageMap.Shape;
      ghost var v := Snapshot();
      Frontier(v);
      addr := os.PageAlloc(size);
      RebackKeeps(v, os.nextPage, slab.freeList);
      assert Snapshot() == Reback(v, os.nextPage, slab.freeList);
    }

    /** page_dealloc on the heap's behalf: the region is given back and none of its pages is handed out again. */
    method UnmapPages(addr: nat, size: nat)
      requires Inv()
      modifies os
      ensures pm.Valid() && os.Valid() && slab.Valid() && Coupled() && Good(Snapshot())
      ensures Snapshot() == old(Snapshot())
      ensures free == old(free)
    {
      hide Good, PageMap.Valid, PageMap.Shape;
      os.PageDealloc(addr, size);
    }

    /**
     * find_best_large_span: walks the large list keeping the first span with
     * the fewest pages >= n; stops early on an exact fit; null if none fits.
     */
    method FindBestLargeSpan(n: nat) returns (best: Span?)
      requires forall t :: t in large ==> t in info && info[t].pages == t.numPages < USIZE_MAX
      ensures best == null <==> !AnyFit(large, info, n)
      ensures best != null ==> BestFit(large, info, n, best)
    {
      best := null;
      var bestPages := USIZE_MAX;
      var i := 0;
      while i < |large|
        invariant 0 <= i <= |large|
        invariant best == null ==> bestPages == USIZE_MAX && forall j :: 0 <= j < i ==> info[large[j]].pages < n
        invariant best != null ==> best in large[..i] && bestPages == info[best].pages >= n
        invariant best != null ==> forall j :: 0 <= j < i && info[large[j]].pages >= n ==> bestPages <= info[large[j]].pages
        invariant best != null ==> forall j :: 0 <= j < IndexOf(large, best) && info[large[j]].pages >= n ==> info[large[j]].pages > bestPages
      {
        var current := large[i];
        var pages := current.numPages;
        if pages >= n && pages < bestPages {
          best := current;
          bestPages := pages;
          if pages == n {
            break;
          }
        }
        i := i + 1;
      }
    }

    // ---- The page heap's operations, composed of the steps. ----

    /** carve_span's tail: the loose span is marked in use and all its pages are registered. */
    method HandOut(s: Span)
      requires Inv() && s in Loose(Snapshot())
      modifies this, pm, pm.root, s`state
      ensures pm.Valid() && os.Valid() && slab.Valid() && Coupled() && Good(Snapshot())
      ensures Snapshot() == MarkInUse(MapLoose(Restate(old(Snapshot()), s, InUse), s, pm.Contents), s)
      ensures Loose(Snapshot()) == old(Loose(Snapshot())) - {s}
      ensures live == old(live) && inUse == old(inUse) + {s} && info == old(info)[s := old(info[s]).(state := InUse)]
      ensures free == old(free) && freeLists == old(freeLists) && large == old(large)
    {
      hide Good, Coupled, PageMap.Valid, PageMap.Shape;
      SetState(s, InUse);
      RegisterLoose(s);
      MarkHandedOut(s);
    }

    /** carve_span's split proper: rem takes the pages of s past its first n and goes on the free lists. */
    method SplitInto(s: Span, rem: Span, n: nat)
      requires Inv() && s in Loose(Snapshot()) && rem !in live && rem !in slab.freeList && 1 <= n < info[s].pages
      modifies this, pm, pm.root, s`numPages, rem`startPage, rem`numPages, rem`state
      ensures pm.Valid() && os.Valid() && slab.Valid() && Coupled() && Good(Snapshot())
      ensures Loose(Snapshot()) == old(Loose(Snapshot())) && inUse == old(inUse)
      ensures info[s] == old(info[s]).(pages := n)
      ensures old(live) <= live && forall t :: t in old(live) && t != s ==> info[t] == old(info[t])
      ensures free == old(free) + {rem} && rem in info && info[rem] == SpanInfo(old(info[s]).start + n, old(info[s]).pages - n, Free)
      ensures PushedOn(freeLists, large, old(freeLists), old(large), rem, old(info[s]).pages - n)
    {
      hide Good, Coupled, PageMap.Valid, PageMap.Shape;
      Shorten(s, rem, n);
      RegisterEnds(rem);
      InsertFree(rem);
    }

    /**
     * carve_span's split: when a struct for the rest can be had, the loose
     * span keeps its first n pages and the rest goes back to the lists as a
     * free span; otherwise nothing changes but the slab and the OS frontier.
     */
    method Trim(s: Span, n: nat) returns (ghost rem: Span?)
      requires Inv() && s in Loose(Snapshot()) && 1 <= n < info[s].pages
      modifies this, pm, pm.root, slab, os, slab.freeList, s`numPages
      ensures pm.Valid() && os.Valid() && slab.Valid() && Coupled() && Good(Snapshot())
      ensures Loose(Snapshot()) == old(Loose(Snapshot())) && inUse == old(inUse)
      ensures rem != null ==> info[s] == old(info[s]).(pages := n) && rem !in old(live) && free == old(free) + {rem}
      ensures rem != null ==> rem in info && info[rem] == SpanInfo(old(info[s]).start + n, old(info[s]).pages - n, Free)
      ensures rem != null ==> PushedOn(freeLists, large, old(freeLists), old(large), rem, old(info[s]).pages - n)
      ensures rem == null ==> info[s] == old(info[s]) && old(Exhausted()) && Exhausted()
      ensures rem == null ==> free == old(free) && freeLists == old(freeLists) && large == old(large)
      ensures old(live) <= live && forall t :: t in old(live) && t != s ==> info[t] == old(info[t])
      ensures forall t :: t in slab.freeList ==> t in old(slab.freeList)
      ensures rem != null ==> rem in old(slab.freeList) || fresh(rem)
      ensures forall t :: t in free ==> t in old(free) || t in old(slab.freeList) || fresh(t)
    {
      hide Good, Coupled, PageMap.Valid, PageMap.Shape;
      var t := NewStruct();
      rem := t;
      if t != null {
        SplitInto(s, t, n);
      }
    }

    /**
     * carve_span: the loose span keeps its first n pages and is handed out;
     * the rest goes back to the lists as a free span. When no struct for the
     * rest can be had, the span is handed out whole.
     */
    method CarveSpan(s: Span, n: nat) returns (ghost rem: Span?)
      requires Inv() && s in Loose(Snapshot()) && 1 <= n <= info[s].pages
      modifies this, pm, pm.root, slab, os, slab.freeList, s`numPages, s`state
      ensures pm.Valid() && os.Valid() && slab.Valid() && Coupled() && Good(Snapshot())
      ensures Loose(Snapshot()) == old(Loose(Snapshot())) - {s} && inUse == old(inUse) + {s}
      ensures info[s].start == old(info[s].start) && info[s].state == InUse
      ensures rem != null ==> info[s].pages == n < old(info[s].pages) && rem !in old(live) && free == old(free) + {rem}
      ensures rem != null ==> rem in info && info[rem] == SpanInfo(old(info[s]).start + n, old(info[s]).pages - n, Free)
      ensures rem != null ==> PushedOn(freeLists, large, old(freeLists), old(large), rem, old(info[s]).pages - n)
      ensures rem == null ==> info[s].pages == old(info[s].pages) && free == old(free)
      ensures rem == null ==> freeLists == old(freeLists) && large == old(large)
      ensures info[s].pages != n ==> old(Exhausted()) && Exhausted()
      ensures forall t :: t in slab.freeList ==> t in old(slab.freeList)
      ensures rem != null ==> rem in old(slab.freeList) || fresh(rem)
      ensures forall t :: t in free ==> t in old(free) || t in old(slab.freeList) || fresh(t)
      ensures old(live) <= live && forall t :: t in old(live) && t != s ==> info[t] == old(info[t])
    {
      var total := s.numPages;
      assert total == info[s].pages;
      hide Good, Coupled, PageMap.Valid, PageMap.Shape;
      rem := null;
      if total > n {
        rem := Trim(s, n);
      }
      HandOut(s);
    }

    /**
     * coalesce_left, for the only loose span, which is marked free: when the
     * page before it maps to a free span ending exactly there, that span
     * leaves its list and absorbs s, whose struct is recycled; otherwise
     * nothing changes.
     */
    method CoalesceLeft(s: Span) returns (r: Span)
      requires Inv() && Loose(Snapshot()) == {s} && info[s].state == Free
      modifies this, slab, free`numPages, s`next
      ensures pm.Valid() && os.Valid() && slab.Valid() && Coupled() && Good(Snapshot())
      ensures Loose(Snapshot()) == {r} && info[r].state == Free && free <= old(free)
      ensures r == s ==> Snapshot() == old(Snapshot())
      ensures r == s ==> forall f :: !FreeEndsAt(old(Snapshot()), f, old(info[s].start))
      ensures r != s ==> FreeEndsAt(old(Snapshot()), r, old(info[s].start)) && slab.freeList == [s] + old(slab.freeList)
      ensures r != s ==> r in old(free)
      ensures r != s ==> Snapshot() == Reback(Absorb(TakeFree(old(Snapshot()), r), r, s), os.nextPage, slab.freeList)
      ensures forall t :: t in old(live) && t != s && t != r ==> t in live && info[t] == old(info[t])
      ensures forall t :: t in live && t != r ==> t in old(live) && info[t] == old(info[t])
      ensures r != s ==> s !in live
      ensures forall t :: t in slab.freeList ==> t in old(slab.freeList) || t == s
    {
      hide Good, PageMap.Shape;
      ghost var v := Snapshot();
      Frontier(v);
      FreeLeftIsFound(v, s);
      r := s;
      var start := s.startPage;
      if start == 0 {
        return;
      }
      var left := pm.Get(start - 1);
      if left == null {
        return;
      }
      LeftNeighbour(v, s, start - 1);
      if left.state != Free {
        return;
      }
      if left.startPage + left.numPages != start {
        return;
      }
      Unlist(left);
      Merge(left, s);
      FreeStruct(s);
      r := left;
    }

    /**
     * coalesce_right, for the only loose span, which is marked free: when the
     * page after it maps to a free span starting exactly there, that span
     * leaves its list and s absorbs it; its struct is recycled. Otherwise
     * nothing changes. `right` names the absorbed span (null if none).
     */
    method CoalesceRight(s: Span) returns (ghost right: Span?)
      requires Inv() && Loose(Snapshot()) == {s} && info[s].state == Free
      modifies this, slab, s`numPages, free`next
      ensures pm.Valid() && os.Valid() && slab.Valid() && Coupled() && Good(Snapshot())
      ensures Loose(Snapshot()) == {s} && info[s].state == Free && right != s
      ensures right == null ==> Snapshot() == old(Snapshot())
      ensures right == null ==> forall f :: !FreeStartsAt(old(Snapshot()), f, old(End(info[s])))
      ensures right != null ==> FreeStartsAt(old(Snapshot()), right, old(End(info[s])))
      ensures right != null ==> slab.freeList == [right] + old(slab.freeList)
      ensures free <= old(free)
      ensures right != null ==> Snapshot() == Reback(Absorb(TakeFree(old(Snapshot()), right), s, right), os.nextPage, slab.freeList)
      ensures forall t :: t in old(live) && t != s && t != right ==> t in live && info[t] == old(info[t])
      ensures forall t :: t in live && t != s ==> t in old(live) && info[t] == old(info[t])
      ensures forall t :: t in slab.freeList ==> t in old(slab.freeList) || t == right
    {
      hide Good, PageMap.Shape;
      ghost var v := Snapshot();
      Frontier(v);
      FreeRightIsFound(v, s);
      right := null;
      var endPage := s.EndPage();
      var rt := pm.Get(endPage);
      if rt == null {
        return;
      }
      RightNeighbour(v, s, endPage);
      if rt.state != Free {
        return;
      }
      if rt.startPage != endPage {
        return;
      }
      Unlist(rt);
      Merge(s, rt);
      FreeStruct(rt);
      right := rt;
    }

    /**
     * deallocate_span's merging, for the only loose span, marked free: it is
     * coalesced first with a free span ending where it starts (which then
     * stands for it), then with a free span starting where it ends. `left`
     * and `right` name the neighbours merged (null if none).
     */
    method Coalesce(s: Span) returns (r: Span, ghost left: Span?, ghost right: Span?)
      requires Inv() && Loose(Snapshot()) == {s} && info[s].state == Free
      modifies this, slab, free`numPages, free`next, s`numPages, s`next
      ensures pm.Valid() && os.Valid() && slab.Valid() && Coupled() && Good(Snapshot())
      ensures Loose(Snapshot()) == {r} && info[r].state == Free && inUse == old(inUse)
      ensures left == null ==> r == s && forall f :: !FreeEndsAt(old(Snapshot()), f, old(info[s].start))
      ensures left != null ==> r == left && FreeEndsAt(old(Snapshot()), left, old(info[s].start))
      ensures right == null ==> forall f :: !FreeStartsAt(old(Snapshot()), f, old(End(info[s])))
      ensures right != null ==> FreeStartsAt(old(Snapshot()), right, old(End(info[s])))
      ensures info[r].start == old(info[r].start)
      ensures End(info[r]) == if right == null then old(End(info[s])) else old(End(info[right]))
      ensures free <= old(free) && (left != null ==> left in old(free))
      ensures forall t :: t in old(live) && t != s && t != left && t != right ==> t in live && info[t] == old(info[t])
      ensures forall t :: t in live && t != r ==> t in old(live) && info[t] == old(info[t])
      ensures r != s ==> s !in live
      ensures forall t :: t in slab.freeList ==> t in old(slab.freeList) || t == s || t in old(free)
    {
      hide Good, Coupled, PageMap.Valid, PageMap.Shape;
      ghost var v1 := Snapshot();
      Frontier(v1);
      ghost var e := End(info[s]);
      r := CoalesceLeft(s);
      left := if r == s then null else r;
      if r != s {
        LeftMergeKeepsRight(v1, s, r, os.nextPage, slab.freeList);
        assert End(info[r]) == e;
      }
      ghost var v2 := Snapshot();
      right := CoalesceRight(r);
      if right != null {
        RightMergeEnd(v2, r, right, os.nextPage, slab.freeList);
      }
    }

    /**
     * deallocate_span: the in-use span comes back marked free, merges with a
     * free span ending where it starts and with one starting where it ends,
     * and the merged span m goes on the list for its size with both end pages
     * registered. `left` and `right` name the neighbours merged (null if none).
     */
    method DeallocateSpan(s: Span) returns (ghost m: Span, ghost left: Span?, ghost right: Span?)
      requires Valid() && s in inUse
      modifies this, pm, pm.root, slab, free`numPages, free`next
      modifies s`numPages, s`next, s`state, s`sizeClass, s`freelist, s`allocatedCount, s`totalCount
      ensures pm.Valid() && os.Valid() && slab.Valid() && Coupled() && Good(Snapshot())
      ensures Loose(Snapshot()) == {} && inUse == old(inUse) - {s} && m in free
      ensures left == null ==> m == s && forall f :: !FreeEndsAt(old(Snapshot()), f, old(info[s].start))
      ensures left != null ==> m == left && FreeEndsAt(old(Snapshot()), left, old(info[s].start))
      ensures right == null ==> forall f :: !FreeStartsAt(old(Snapshot()), f, old(End(info[s])))
      ensures right != null ==> FreeStartsAt(old(Snapshot()), right, old(End(info[s])))
      ensures info[m].start == old(info[m].start)
      ensures End(info[m]) == if right == null then old(End(info[s])) else old(End(info[right]))
      ensures free <= old(free) + {s}
      ensures forall t :: t in old(live) && t != s && t != left && t != right ==> t in live && info[t] == old(info[t])
      ensures forall t :: t in live && t != m ==> t in old(live) && info[t] == old(info[t])
      ensures forall t :: t in slab.freeList ==> t in old(slab.freeList) || t == s || t in old(free)
    {
      hide Good, Coupled, PageMap.Valid, PageMap.Shape;
      ghost var v0 := Snapshot();
      InUseMapped(v0, s);
      Reclaim(s);
      ReclaimNeighbours(v0, s, Snapshot());
      var r;
      r, left, right := Coalesce(s);
      RegisterEnds(r);
      InsertFree(r);
      m := r;
    }

    /**
     * grow_heap_exact: n pages from the OS become one span, handed out whole;
     * null when the OS or the slab cannot supply them.
     */
    method GrowHeapExact(n: nat) returns (r: Span?)
      requires Valid() && 1 <= n
      modifies this, pm, pm.root, slab, os, slab.freeList
      ensures pm.Valid() && os.Valid() && slab.Valid() && Coupled() && Good(Snapshot())
      ensures Loose(Snapshot()) == {}
      ensures r == null ==> inUse == old(inUse)
      ensures r == null ==> !old(os.CanAlloc(n * PAGE_SIZE)) || (old(slab.freeList) == [] && !old(slab.BumpFits()))
      ensures r != null ==> r !in old(live) && inUse == old(inUse) + {r} && info[r] == SpanInfo(old(os.nextPage), n, InUse)
      ensures forall t :: t in slab.freeList ==> t in old(slab.freeList)
      ensures free == old(free) && freeLists == old(freeLists) && large == old(large)
      ensures r != null ==> fresh(r) || r in old(slab.freeList)
    {
      hide Good, Coupled, PageMap.Valid, PageMap.Shape;
      Frontier(Snapshot());
      var size := n * PAGE_SIZE;
      var addr := MapPages(size);
      if addr == 0 {
        return null;
      }
      PagesForWhole(n);
      var start := addr / PAGE_SIZE;
      r := NewStruct();
      if r == null {
        UnmapPages(addr, size);
        return;
      }
      Adopt(r, start, n);
      RegisterLoose(r);
      MarkHandedOut(r);
    }

    /**
     * grow_heap's tail: the fresh region of `pages` pages at addr gets a
     * struct and is carved to n pages; without a struct the region is given
     * back to the OS and the answer is null.
     */
    method AdoptRegion(addr: nat, pages: nat, n: nat) returns (r: Span?, ghost rem: Span?)
      requires Valid() && 1 <= n <= pages && addr / PAGE_SIZE + pages <= os.nextPage
      requires forall t :: t in live ==> info[t].start + info[t].pages <= addr / PAGE_SIZE
      modifies this, pm, pm.root, slab, os, slab.freeList
      ensures pm.Valid() && os.Valid() && slab.Valid() && Coupled() && Good(Snapshot())
      ensures Loose(Snapshot()) == {}
      ensures r == null ==> inUse == old(inUse) && old(slab.freeList) == [] && !old(slab.BumpFits())
      ensures r != null ==> r !in old(live) && inUse == old(inUse) + {r}
      ensures r != null ==> info[r].start == addr / PAGE_SIZE && (info[r].pages == n || (info[r].pages == pages && Exhausted()))
      ensures rem != null ==> r != null && info[r].pages == n && rem !in old(live) && free == old(free) + {rem}
      ensures rem != null ==> rem in info && info[rem] == SpanInfo(addr / PAGE_SIZE + n, pages - n, Free)
      ensures rem != null ==> PushedOn(freeLists, large, old(freeLists), old(large), rem, pages - n)
      ensures rem == null ==> free == old(free) && freeLists == old(freeLists) && large == old(large)
      ensures forall t :: t in slab.freeList ==> t in old(slab.freeList)
      ensures forall t :: t in free ==> t in old(free) || t in old(slab.freeList) || fresh(t)
      ensures r != null ==> fresh(r) || r in old(slab.freeList)
    {
      hide Good, Coupled, PageMap.Valid, PageMap.Shape;
      var start := addr / PAGE_SIZE;
      var s := NewStruct();
      if s == null {
        UnmapPages(addr, pages * PAGE_SIZE);
        return null, null;
      }
      Adopt(s, start, pages);
      rem := CarveSpan(s, n);
      r := s;
    }

    /**
     * grow_heap: at least 128 pages from the OS become a span that is carved
     * to n pages; when that many pages cannot be had and more than n were
     * asked for, it falls back to exactly n.
     */
    method GrowHeap(n: nat) returns (r: Span?, ghost rem: Span?)
      requires Valid() && 1 <= n
      modifies this, pm, pm.root, slab, os, slab.freeList
      ensures pm.Valid() && os.Valid() && slab.Valid() && Coupled() && Good(Snapshot())
      ensures Loose(Snapshot()) == {}
      ensures r == null ==> inUse == old(inUse)
      ensures r == null ==> !old(os.CanAlloc(n * PAGE_SIZE)) || (old(slab.freeList) == [] && !old(slab.BumpFits()))
      ensures r != null ==> r !in old(live) && inUse == old(inUse) + {r}
      ensures r != null ==> info[r].start == old(os.nextPage) && (info[r].pages == n || (info[r].pages == GrowPages(n) && Exhausted()))
      ensures rem != null ==> r != null && info[r].pages == n && rem !in old(live) && free == old(free) + {rem}
      ensures rem != null ==> rem in info && info[rem] == SpanInfo(old(os.nextPage) + n, GrowPages(n) - n, Free)
      ensures rem != null ==> PushedOn(freeLists, large, old(freeLists), old(large), rem, GrowPages(n) - n)
      ensures rem == null ==> free == old(free) && freeLists == old(freeLists) && large == old(large)
      ensures forall t :: t in slab.freeList ==> t in old(slab.freeList)
      ensures forall t :: t in free ==> t in old(free) || t in old(slab.freeList) || fresh(t)
      ensures r != null ==> fresh(r) || r in old(slab.freeList)
    {
      hide Good, Coupled, PageMap.Valid, PageMap.Shape;
      Frontier(Snapshot());
      var allocPages := GrowPages(n);
      var allocSize := allocPages * PAGE_SIZE;
      var addr := MapPages(allocSize);
      if addr == 0 {
        rem := null;
        if allocPages > n {
          r := GrowHeapExact(n);
          return;
        }
        return null, null;
      }
      PagesForWhole(allocPages);
      r, rem := AdoptRegion(addr, allocPages, n);
    }

    // ---- What the tiers above may rely on about the spans they hold. ----

    /**
     * A span handed out is marked in use, is neither free nor on the recycle
     * list, and every one of its pages maps to it.
     */
    lemma Holding(s: Span)
      requires Valid() && s in inUse
      ensures pm.Valid() && s in live && s !in free && s !in slab.freeList
      ensures s.state == InUse && 1 <= s.numPages && s.startPage + s.numPages <= os.nextPage
      ensures s in info && info[s] == SpanInfo(s.startPage, s.numPages, InUse)
      ensures forall p :: s.startPage <= p < s.startPage + s.numPages ==> Lookup(pm.Contents, p) == s
    {
      hide Good;
      ghost var v := Snapshot();
      InUseMapped(v, s);
      Frontier(v);
      LiveBounds(v, s);
      assert info[s] == SpanInfo(s.startPage, s.numPages, s.state);
      forall p | s.startPage <= p < s.startPage + s.numPages
        ensures Lookup(pm.Contents, p) == s
      {
        assert Covers(info[s], p);
      }
    }

    /** Two different spans handed out share no page. */
    lemma HeldApart(s: Span, t: Span)
      requires Valid() && s in inUse && t in inUse && s != t
      ensures s.startPage + s.numPages <= t.startPage || t.startPage + t.numPages <= s.startPage
    {
      hide Good;
      ghost var v := Snapshot();
      InUseApart(v, s, t);
      Frontier(v);
      assert info[s] == SpanInfo(s.startPage, s.numPages, s.state);
      assert info[t] == SpanInfo(t.startPage, t.numPages, t.state);
    }

    /** The parts the operations ensure one by one make up the invariant. */
    lemma Settled()
      requires pm.Valid() && os.Valid() && slab.Valid() && Coupled() && Good(Snapshot())
      requires Loose(Snapshot()) == {}
      ensures Valid()
    {
    }

    /** No span handed out is free or waiting on the recycle list. */
    lemma Separate()
      requires Valid()
      ensures inUse !! free
      ensures forall t :: t in slab.freeList ==> t !in inUse
    {
      hide Good;
      Frontier(Snapshot());
    }

    /**
     * register_span on a span already handed out (inject_span does this):
     * its pages already map to it, so the heap's bookkeeping is unchanged.
     */
    method RegisterInUse(s: Span)
      requires Valid() && s in inUse
      modifies pm, pm.root
      ensures Valid() && Snapshot() == old(Snapshot())
    {
      Holding(s);
      hide Good, Coupled, PageMap.Shape;
      ghost var before := pm.Contents;
      assert os.Valid();
      pm.RegisterSpan(s);
      LookupSame(before, pm.Contents);
    }

    /**
     * allocate_span's search: the head of the first non-empty exact-size list
     * from n up, else the best fit among the large spans; it leaves its list
     * and is loose. Null when neither has a span of n pages or more.
     */
    method TakeFit(n: nat) returns (s: Span?)
      requires Valid() && 1 <= n
      modifies this
      ensures pm.Valid() && os.Valid() && slab.Valid() && Coupled() && Good(Snapshot())
      ensures s == null ==> Snapshot() == old(Snapshot()) && Loose(Snapshot()) == {}
      ensures s != null ==> s in old(free) && Loose(Snapshot()) == {s} && free == old(free) - {s} && inUse == old(inUse)
      ensures s != null ==> n <= info[s].pages && info[s] == old(info[s])
      ensures forall k: nat :: FirstListed(old(freeLists), n, k) ==> s == old(freeLists[k][0])
      ensures NoneListed(old(freeLists), n) && AnyFit(old(large), old(info), n) ==> s != null && BestFit(old(large), old(info), n, s)
      ensures NoneListed(old(freeLists), n) && !AnyFit(old(large), old(info), n) ==> s == null
      ensures s == null ==> NoneListed(old(freeLists), n) && !AnyFit(old(large), old(info), n)
    {
      hide Good, PageMap.Valid, PageMap.Shape, TakeFree, WithList;
      ghost var v := Snapshot();
      ListFacts(v);
      var k := FirstNonEmpty(freeLists, n);
      if k < |freeLists| {
        s := PopFree(k);
        TakeFreeFrame(v, s);
      } else {
        s := FindBestLargeSpan(n);
        if s != null {
          Unlist(s);
          TakeFreeFrame(v, s);
        }
      }
    }

    /**
     * allocate_span: the span allocate_span's search finds, else fresh pages
     * from the OS; carved to n pages and handed out. Null when all of these
     * fail.
     */
    method AllocateSpan(n: nat) returns (r: Span?, ghost rem: Span?)
      requires Valid() && 1 <= n
      modifies this, pm, pm.root, slab, os, slab.freeList, free`numPages, free`state
      ensures pm.Valid() && os.Valid() && slab.Valid() && Coupled() && Good(Snapshot())
      ensures Loose(Snapshot()) == {}
      ensures r == null ==> inUse == old(inUse)
      ensures r == null ==> NoneListed(old(freeLists), n) && !AnyFit(old(large), old(info), n)
      ensures r == null ==> !old(os.CanAlloc(n * PAGE_SIZE)) || (old(slab.freeList) == [] && !old(slab.BumpFits()))
      ensures r != null ==> r !in old(inUse) && inUse == old(inUse) + {r} && info[r].pages >= n
      ensures r != null ==> info[r].pages == n || Exhausted()
      ensures rem != null ==> r != null && info[r].pages == n && rem !in old(live) && rem in free && rem in info
      ensures rem != null ==> info[rem].start == info[r].start + n && info[rem].state == Free
      ensures r != null && r in old(live) ==> r in old(free) && info[r].start == old(info[r].start)
      ensures r != null && r in old(live) ==> info[r].pages + (if rem == null then 0 else info[rem].pages) == old(info[r].pages)
      ensures r != null && r !in old(live) ==> info[r].start == old(os.nextPage)
      ensures r != null && r !in old(live) ==> info[r].pages + (if rem == null then 0 else info[rem].pages) in {n, GrowPages(n)}
      ensures r != null ==> forall p :: Covers(info[r], p) ==> Lookup(pm.Contents, p) == r
      ensures forall k: nat :: FirstListed(old(freeLists), n, k) ==> r == old(freeLists[k][0])
      ensures NoneListed(old(freeLists), n) && AnyFit(old(large), old(info), n) ==> r != null && BestFit(old(large), old(info), n, r)
      ensures NoneListed(old(freeLists), n) && !AnyFit(old(large), old(info), n) ==> r == null || r !in old(live)
      ensures forall t :: t in slab.freeList ==> t in old(slab.freeList)
      ensures forall t :: t in free ==> t in old(free) || t in old(slab.freeList) || fresh(t)
      ensures r != null ==> r in old(free) || r in old(slab.freeList) || fresh(r)
    {
      hide Good, Coupled, PageMap.Valid, PageMap.Shape;
      Frontier(Snapshot());
      r := TakeFit(n);
      if r != null {
        rem := CarveSpan(r, n);
      } else {
        r, rem := GrowHeap(n);
      }
      if r != null {
        InUseMapped(Snapshot(), r);
      }
    }
  }
}
