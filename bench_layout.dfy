/**
 * How the benchmark summary lays out criterion's result tree
 * (`target/criterion/<group>/<alloc>[/<param>]/new/estimates.json`) as
 * keyed timings, and how each key's timings are ranked for printing.
 *
 * The directory listing is a value: each directory records its name,
 * whether it is a directory, and what read_estimate yields for it (file
 * reading and number parsing happen outside the model).
 */
module BenchLayout {
  import opened Wrappers
  import opened BenchSummary

  /** `<group>/<alloc>/<param>`: estimate is read_estimate on this directory. */
  datatype ParamDir = ParamDir(name: string, isDir: bool, estimate: Option<real>)

  /**
   * `<group>/<alloc>`: direct says `new/estimates.json` exists right under
   * it, and estimate is read_estimate on it.
   */
  datatype AllocDir = AllocDir(name: string, isDir: bool, direct: bool, estimate: Option<real>, params: seq<ParamDir>)

  /** `<group>`, a benchmark group. */
  datatype GroupDir = GroupDir(name: string, isDir: bool, allocs: seq<AllocDir>)

  /** One timing pushed onto `groups[group][param]`, tagged with its allocator. */
  datatype Entry = Entry(group: string, param: string, alloc: string, ns: real)

  /** criterion's HTML report directory, skipped at every level. */
  const REPORT: string := "report"

  predicate ParamCounted(p: ParamDir)
  {
    p.name != REPORT && p.isDir && p.estimate.Some?
  }

  predicate AllocCounted(a: AllocDir)
  {
    a.name != REPORT && a.isDir
  }

  predicate GroupCounted(g: GroupDir)
  {
    g.name != REPORT && g.isDir
  }

  /** What one parameter directory adds. */
  function ParamEntry(group: string, alloc: string, p: ParamDir): seq<Entry>
  {
    if ParamCounted(p) then [Entry(group, p.name, alloc, p.estimate.value)] else []
  }

  /** What the parameter directories add, in listing order. */
  function ParamEntries(group: string, alloc: string, ps: seq<ParamDir>): seq<Entry>
    decreases |ps|
  {
    if ps == [] then []
    else ParamEntries(group, alloc, ps[..|ps| - 1]) + ParamEntry(group, alloc, ps[|ps| - 1])
  }

  /**
   * What one allocator directory adds: its own estimate under the empty
   * parameter when `new/estimates.json` sits right under it, otherwise
   * one timing per parameter directory.
   */
  function AllocEntries(group: string, a: AllocDir): seq<Entry>
  {
    if !AllocCounted(a) then []
    else if a.direct then
      (if a.estimate.Some? then [Entry(group, "", a.name, a.estimate.value)] else [])
    else ParamEntries(group, a.name, a.params)
  }

  function AllocsEntries(group: string, allocs: seq<AllocDir>): seq<Entry>
    decreases |allocs|
  {
    if allocs == [] then []
    else AllocsEntries(group, allocs[..|allocs| - 1]) + AllocEntries(group, allocs[|allocs| - 1])
  }

  function GroupEntries(g: GroupDir): seq<Entry>
  {
    if GroupCounted(g) then AllocsEntries(g.name, g.allocs) else []
  }

  /** Every timing print_summary collects, in the order it pushes them. */
  function Keys(gs: seq<GroupDir>): seq<Entry>
    decreases |gs|
  {
    if gs == [] then [] else Keys(gs[..|gs| - 1]) + GroupEntries(gs[|gs| - 1])
  }

  /** The collection loops of print_summary over the listed tree. */
  method CollectKeys(gs: seq<GroupDir>) returns (entries: seq<Entry>)
    ensures entries == Keys(gs)
  {
    entries := [];
    var i := 0;
    while i < |gs|
      invariant 0 <= i <= |gs|
      invariant entries == Keys(gs[..i])
    {
      var g := gs[i];
      assert gs[..i + 1][..i] == gs[..i];
      if g.name == REPORT || !g.isDir {
        i := i + 1;
        continue;
      }
      var more := CollectAllocs(g.name, g.allocs);
      entries := entries + more;
      i := i + 1;
    }
    assert gs[..i] == gs;
  }

  /** The loop over one group's allocator directories. */
  method CollectAllocs(group: string, allocs: seq<AllocDir>) returns (entries: seq<Entry>)
    ensures entries == AllocsEntries(group, allocs)
  {
    entries := [];
    var j := 0;
    while j < |allocs|
      invariant 0 <= j <= |allocs|
      invariant entries == AllocsEntries(group, allocs[..j])
    {
      var a := allocs[j];
      assert allocs[..j + 1][..j] == allocs[..j];
      if a.name == REPORT || !a.isDir {
        j := j + 1;
        continue;
      }
      if a.direct {
        if a.estimate.Some? {
          entries := entries + [Entry(group, "", a.name, a.estimate.value)];
        }
        j := j + 1;
        continue;
      }
      var more := CollectParams(group, a.name, a.params);
      entries := entries + more;
      j := j + 1;
    }
    assert allocs[..j] == allocs;
  }

  /** The loop over one allocator directory's parameter directories. */
  method CollectParams(group: string, alloc: string, ps: seq<ParamDir>) returns (entries: seq<Entry>)
    ensures entries == ParamEntries(group, alloc, ps)
  {
    entries := [];
    var k := 0;
    while k < |ps|
      invariant 0 <= k <= |ps|
      invariant entries == ParamEntries(group, alloc, ps[..k])
    {
      var p := ps[k];
      assert ps[..k + 1][..k] == ps[..k];
      if p.name != REPORT && p.isDir && p.estimate.Some? {
        entries := entries + [Entry(group, p.name, alloc, p.estimate.value)];
      }
      k := k + 1;
    }
    assert ps[..k] == ps;
  }

  /** A timing comes from a parameter directory's listing exactly when one of them adds it. */
  lemma {:induction false} ParamEntriesHas(group: string, alloc: string, ps: seq<ParamDir>, e: Entry)
    ensures e in ParamEntries(group, alloc, ps) <==> exists k :: 0 <= k < |ps| && e in ParamEntry(group, alloc, ps[k])
    decreases |ps|
  {
    if ps != [] {
      var init := ps[..|ps| - 1];
      ParamEntriesHas(group, alloc, init, e);
      if e in ParamEntries(group, alloc, ps) && e !in ParamEntry(group, alloc, ps[|ps| - 1]) {
        var k :| 0 <= k < |init| && e in ParamEntry(group, alloc, init[k]);
        assert ps[k] == init[k];
      }
      if exists k :: 0 <= k < |ps| && e in ParamEntry(group, alloc, ps[k]) {
        var k :| 0 <= k < |ps| && e in ParamEntry(group, alloc, ps[k]);
        if k < |init| {
          assert init[k] == ps[k];
        }
      }
    }
  }

  lemma {:induction false} AllocsEntriesHas(group: string, allocs: seq<AllocDir>, e: Entry)
    ensures e in AllocsEntries(group, allocs) <==> exists j :: 0 <= j < |allocs| && e in AllocEntries(group, allocs[j])
    decreases |allocs|
  {
    if allocs != [] {
      var init := allocs[..|allocs| - 1];
      AllocsEntriesHas(group, init, e);
      if e in AllocsEntries(group, allocs) && e !in AllocEntries(group, allocs[|allocs| - 1]) {
        var j :| 0 <= j < |init| && e in AllocEntries(group, init[j]);
        assert allocs[j] == init[j];
      }
      if exists j :: 0 <= j < |allocs| && e in AllocEntries(group, allocs[j]) {
        var j :| 0 <= j < |allocs| && e in AllocEntries(group, allocs[j]);
        if j < |init| {
          assert init[j] == allocs[j];
        }
      }
    }
  }

  lemma {:induction false} KeysHas(gs: seq<GroupDir>, e: Entry)
    ensures e in Keys(gs) <==> exists i :: 0 <= i < |gs| && e in GroupEntries(gs[i])
    decreases |gs|
  {
    if gs != [] {
      var init := gs[..|gs| - 1];
      KeysHas(init, e);
      if e in Keys(gs) && e !in GroupEntries(gs[|gs| - 1]) {
        var i :| 0 <= i < |init| && e in GroupEntries(init[i]);
        assert gs[i] == init[i];
      }
      if exists i :: 0 <= i < |gs| && e in GroupEntries(gs[i]) {
        var i :| 0 <= i < |gs| && e in GroupEntries(gs[i]);
        if i < |init| {
          assert init[i] == gs[i];
        }
      }
    }
  }

  /**
   * What an allocator directory adds: nothing when it is "report" or not a
   * directory; its own estimate under the empty parameter when
   * `new/estimates.json` sits right under it; otherwise one timing per
   * parameter directory that is not "report", is a directory and has an
   * estimate.
   */
  lemma AllocEntriesHas(group: string, a: AllocDir, e: Entry)
    ensures e in AllocEntries(group, a) <==>
      AllocCounted(a) &&
      if a.direct then a.estimate.Some? && e == Entry(group, "", a.name, a.estimate.value)
      else (exists k :: 0 <= k < |a.params| && ParamCounted(a.params[k]) &&
                        e == Entry(group, a.params[k].name, a.name, a.params[k].estimate.value))
  {
    if AllocCounted(a) && !a.direct {
      ParamEntriesHas(group, a.name, a.params, e);
    }
  }

  /**
   * The collected timings are exactly those of the allocator directories of
   * the counted groups: each sits under a group that is not "report" and is
   * a directory, and every such group's allocator directories contribute all
   * of theirs.
   */
  lemma KeysAre(gs: seq<GroupDir>, e: Entry)
    ensures e in Keys(gs) <==>
      exists i, j :: 0 <= i < |gs| && GroupCounted(gs[i]) && 0 <= j < |gs[i].allocs| &&
        e in AllocEntries(gs[i].name, gs[i].allocs[j])
  {
    KeysHas(gs, e);
    if e in Keys(gs) {
      var i :| 0 <= i < |gs| && e in GroupEntries(gs[i]);
      AllocsEntriesHas(gs[i].name, gs[i].allocs, e);
    }
    if exists i, j :: 0 <= i < |gs| && GroupCounted(gs[i]) && 0 <= j < |gs[i].allocs| &&
        e in AllocEntries(gs[i].name, gs[i].allocs[j]) {
      var i, j :| 0 <= i < |gs| && GroupCounted(gs[i]) && 0 <= j < |gs[i].allocs| &&
        e in AllocEntries(gs[i].name, gs[i].allocs[j]);
      AllocsEntriesHas(gs[i].name, gs[i].allocs, e);
    }
  }

  /** No collected key names a "report" directory at any level. */
  lemma KeysSkipReport(gs: seq<GroupDir>, e: Entry)
    requires e in Keys(gs)
    ensures e.group != REPORT && e.alloc != REPORT && e.param != REPORT
  {
    KeysAre(gs, e);
    var i, j :| 0 <= i < |gs| && GroupCounted(gs[i]) && 0 <= j < |gs[i].allocs| &&
      e in AllocEntries(gs[i].name, gs[i].allocs[j]);
    AllocEntriesHas(gs[i].name, gs[i].allocs[j], e);
  }

  /** An allocator directory holding `new/estimates.json` directly is keyed with the empty parameter. */
  lemma DirectKeyed(gs: seq<GroupDir>, i: nat, j: nat)
    requires i < |gs| && GroupCounted(gs[i]) && j < |gs[i].allocs|
    requires AllocCounted(gs[i].allocs[j]) && gs[i].allocs[j].direct && gs[i].allocs[j].estimate.Some?
    ensures Entry(gs[i].name, "", gs[i].allocs[j].name, gs[i].allocs[j].estimate.value) in Keys(gs)
    ensures forall e :: e in AllocEntries(gs[i].name, gs[i].allocs[j]) ==> e.param == ""
  {
    var a := gs[i].allocs[j];
    var e := Entry(gs[i].name, "", a.name, a.estimate.value);
    AllocEntriesHas(gs[i].name, a, e);
    KeysAre(gs, e);
  }

  /** Otherwise each `<alloc>/<param>` directory is its own key. */
  lemma ParamKeyed(gs: seq<GroupDir>, i: nat, j: nat, k: nat)
    requires i < |gs| && GroupCounted(gs[i]) && j < |gs[i].allocs|
    requires AllocCounted(gs[i].allocs[j]) && !gs[i].allocs[j].direct
    requires k < |gs[i].allocs[j].params| && ParamCounted(gs[i].allocs[j].params[k])
    ensures Entry(gs[i].name, gs[i].allocs[j].params[k].name, gs[i].allocs[j].name,
                  gs[i].allocs[j].params[k].estimate.value) in Keys(gs)
  {
    var a := gs[i].allocs[j];
    var p := a.params[k];
    var e := Entry(gs[i].name, p.name, a.name, p.estimate.value);
    AllocEntriesHas(gs[i].name, a, e);
    KeysAre(gs, e);
  }

  // ---------------------------------------------------------------------
  // One key's results, filtered to KNOWN and ranked fastest first
  // ---------------------------------------------------------------------

  /** An allocator's name and its median time in nanoseconds. */
  type Timing = (string, real)

  /** `groups[group][param]`: the key's (allocator, time) pairs in push order. */
  function Bucket(es: seq<Entry>, group: string, param: string): (r: seq<Timing>)
    ensures forall x :: x in r <==> exists e :: e in es && e.group == group && e.param == param && x == (e.alloc, e.ns)
    decreases |es|
  {
    if es == [] then []
    else
      var e := es[|es| - 1];
      var init := Bucket(es[..|es| - 1], group, param);
      assert forall x :: x in es <==> x in es[..|es| - 1] || x == e;
      if e.group == group && e.param == param then init + [(e.alloc, e.ns)] else init
  }

  /** The positions in `es` of the entries keyed (group, param), in increasing order. */
  function Picks(es: seq<Entry>, group: string, param: string): (ix: seq<nat>)
    ensures forall k :: 0 <= k < |ix| ==> ix[k] < |es| && es[ix[k]].group == group && es[ix[k]].param == param
    ensures forall k, l :: 0 <= k < l < |ix| ==> ix[k] < ix[l]
    ensures forall i :: 0 <= i < |es| && es[i].group == group && es[i].param == param ==> i in ix
    decreases |es|
  {
    if es == [] then []
    else
      var init := Picks(es[..|es| - 1], group, param);
      if es[|es| - 1].group == group && es[|es| - 1].param == param then init + [|es| - 1] else init
  }

  /**
   * The bucket holds one pair per keyed entry and in the entries' order:
   * its k-th pair comes from the k-th keyed position, so no entry is lost,
   * repeated or reordered.
   */
  lemma {:induction false} BucketFollowsPicks(es: seq<Entry>, group: string, param: string)
    ensures |Bucket(es, group, param)| == |Picks(es, group, param)|
    ensures forall k :: 0 <= k < |Picks(es, group, param)| ==>
              Bucket(es, group, param)[k] == (es[Picks(es, group, param)[k]].alloc, es[Picks(es, group, param)[k]].ns)
    decreases |es|
  {
    if es != [] {
      var pre := es[..|es| - 1];
      var e := es[|es| - 1];
      BucketFollowsPicks(pre, group, param);
      var ix, b := Picks(pre, group, param), Bucket(pre, group, param);
      assert Picks(es, group, param) == (if e.group == group && e.param == param then ix + [|es| - 1] else ix);
      assert Bucket(es, group, param) == (if e.group == group && e.param == param then b + [(e.alloc, e.ns)] else b);
      forall k | 0 <= k < |ix|
        ensures es[ix[k]] == pre[ix[k]]
      {
      }
    }
  }

  /** The results whose allocator is in KNOWN, in their order. */
  function KnownOnly(rs: seq<Timing>): (r: seq<Timing>)
    ensures forall x :: x in r <==> x in rs && x.0 in KNOWN
    ensures forall x: Timing :: x.0 in KNOWN ==> multiset(r)[x] == multiset(rs)[x]
    ensures forall x: Timing :: x.0 !in KNOWN ==> multiset(r)[x] == 0
  {
    if rs == [] then []
    else
      assert rs == [rs[0]] + rs[1..];
      (if rs[0].0 in KNOWN then [rs[0]] else []) + KnownOnly(rs[1..])
  }

  /** Ascending by time. */
  predicate Sorted(rs: seq<Timing>)
  {
    forall i, j :: 0 <= i < j < |rs| ==> rs[i].1 <= rs[j].1
  }

  /** x placed before the first result that is not faster than it. */
  function Insert(x: Timing, rs: seq<Timing>): seq<Timing>
  {
    if rs == [] || x.1 <= rs[0].1 then [x] + rs
    else [rs[0]] + Insert(x, rs[1..])
  }

  /** `sort_by` on the times: a stable sort, here an insertion sort. */
  function SortByTime(rs: seq<Timing>): seq<Timing>
  {
    if rs == [] then [] else Insert(rs[0], SortByTime(rs[1..]))
  }

  /** The results print_summary prints for one key, fastest first. */
  function Ranked(rs: seq<Timing>): seq<Timing>
  {
    SortByTime(KnownOnly(rs))
  }

  lemma {:induction false} InsertKeeps(x: Timing, rs: seq<Timing>)
    requires Sorted(rs)
    ensures Sorted(Insert(x, rs))
    ensures multiset(Insert(x, rs)) == multiset(rs) + multiset{x}
  {
    if rs != [] && x.1 > rs[0].1 {
      assert rs == [rs[0]] + rs[1..];
      InsertKeeps(x, rs[1..]);
      var t := Insert(x, rs[1..]);
      forall k | 0 <= k < |t|
        ensures rs[0].1 <= t[k].1
      {
        assert t[k] in multiset(t);
        assert t[k] in rs[1..] || t[k] == x;
      }
    }
  }

  lemma {:induction false} SortKeeps(rs: seq<Timing>)
    ensures Sorted(SortByTime(rs))
    ensures multiset(SortByTime(rs)) == multiset(rs)
  {
    if rs != [] {
      SortKeeps(rs[1..]);
      InsertKeeps(rs[0], SortByTime(rs[1..]));
      assert rs == [rs[0]] + rs[1..];
    }
  }

  /**
   * The ranked results are the known allocators' results, each as often as
   * it was pushed, fastest first; a key left with none of them is skipped.
   */
  lemma RankedIs(rs: seq<Timing>)
    ensures Sorted(Ranked(rs))
    ensures forall x: Timing :: x.0 in KNOWN ==> multiset(Ranked(rs))[x] == multiset(rs)[x]
    ensures forall x: Timing :: x.0 !in KNOWN ==> multiset(Ranked(rs))[x] == 0
    ensures Ranked(rs) == [] <==> forall i :: 0 <= i < |rs| ==> rs[i].0 !in KNOWN
  {
    SortKeeps(KnownOnly(rs));
    var r := Ranked(rs);
    if r == [] {
      forall i | 0 <= i < |rs|
        ensures rs[i].0 !in KNOWN
      {
      }
    } else {
      assert r[0] in multiset(KnownOnly(rs));
      var i :| 0 <= i < |rs| && rs[i] == r[0];
    }
  }
}
