/**
 * The allocation-size histogram: 512 counters of 8-byte buckets plus an
 * overflow counter, a greedy coverage-based class suggestion, and the
 * merge loop that turns the observed buckets into a size-class layout.
 */
module Histogram {
  import opened Wrappers

  /** Largest tracked size (inclusive). */
  const MAX_TRACKED: nat := 4096
  /** Width of a bucket in bytes. */
  const BUCKET_SIZE: nat := 8
  /** MAX_TRACKED / BUCKET_SIZE. */
  const NUM_BUCKETS: nat := 512

  /** The bucket of a tracked size: bucket i holds sizes in (i*8, (i+1)*8]. */
  function BucketIndex(size: nat): (i: nat)
    requires 1 <= size <= MAX_TRACKED
    ensures i < NUM_BUCKETS
    ensures i * BUCKET_SIZE < size <= (i + 1) * BUCKET_SIZE
  {
    (size - 1) / BUCKET_SIZE
  }

  /** A point-in-time copy of the counters. */
  datatype Snapshot = Snapshot(counts: seq<nat>, overflow: nat)

  /** The global BUCKETS and OVERFLOW counters. */
  class Recorder {
    var buckets: array<nat>
    var overflow: nat

    ghost predicate Valid()
      reads this
    {
      buckets.Length == NUM_BUCKETS
    }

    constructor ()
      ensures Valid() && fresh(buckets)
      ensures buckets[..] == seq(NUM_BUCKETS, _ => 0) && overflow == 0
    {
      buckets := new nat[NUM_BUCKETS](_ => 0);
      overflow := 0;
    }

    /** record: zero is ignored, large sizes count as overflow, the rest in their bucket. */
    method Record(size: nat)
      requires Valid()
      modifies this, buckets
      ensures Valid() && buckets == old(buckets)
      ensures size == 0 ==> buckets[..] == old(buckets[..]) && overflow == old(overflow)
      ensures size > MAX_TRACKED ==> buckets[..] == old(buckets[..]) && overflow == old(overflow) + 1
      ensures 1 <= size <= MAX_TRACKED ==>
        buckets[..] == old(buckets[..])[BucketIndex(size) := old(buckets[BucketIndex(size)]) + 1]
        && overflow == old(overflow)
    {
      if size == 0 {
        return;
      }
      if size > MAX_TRACKED {
        overflow := overflow + 1;
      } else {
        var idx := (size - 1) / BUCKET_SIZE;
        buckets[idx] := buckets[idx] + 1;
      }
    }

    /** snapshot: load every counter. */
    method TakeSnapshot() returns (snap: Snapshot)
      requires Valid()
      ensures snap.counts == buckets[..] && snap.overflow == overflow
    {
      var counts: seq<nat> := [];
      var i := 0;
      while i < NUM_BUCKETS
        invariant 0 <= i <= NUM_BUCKETS
        invariant counts == buckets[..i]
      {
        counts := counts + [buckets[i]];
        i := i + 1;
      }
      snap := Snapshot(counts, overflow);
    }
  }

  // ---------------------------------------------------------------------
  // Sums over buckets

  /** Allocations counted in buckets lo..hi-1. */
  function RangeSum(counts: seq<nat>, lo: nat, hi: nat): nat
    requires lo <= hi <= |counts|
    decreases hi - lo
  {
    if lo == hi then 0 else RangeSum(counts, lo, hi - 1) + counts[hi - 1]
  }

  /** All tracked allocations (overflow excluded). */
  function Total(counts: seq<nat>): nat
  {
    RangeSum(counts, 0, |counts|)
  }

  lemma {:induction false} RangeSumSplit(counts: seq<nat>, lo: nat, mid: nat, hi: nat)
    requires lo <= mid <= hi <= |counts|
    ensures RangeSum(counts, lo, hi) == RangeSum(counts, lo, mid) + RangeSum(counts, mid, hi)
    decreases hi - mid
  {
    if mid < hi {
      RangeSumSplit(counts, lo, mid, hi - 1);
    }
  }

  lemma {:induction false} RangeSumZero(counts: seq<nat>, lo: nat, hi: nat)
    requires lo <= hi <= |counts|
    ensures RangeSum(counts, lo, hi) == 0 <==> forall b :: lo <= b < hi ==> counts[b] == 0
    decreases hi - lo
  {
    if lo < hi {
      RangeSumZero(counts, lo, hi - 1);
    }
  }

  /** Upper bound of bucket b: the class size that serves it exactly. */
  function Bound(b: nat): nat
  {
    (b + 1) * BUCKET_SIZE
  }

  /** size is the upper bound of a non-empty bucket. */
  predicate IsObservedBound(counts: seq<nat>, size: nat)
  {
    size % BUCKET_SIZE == 0 && BUCKET_SIZE <= size <= |counts| * BUCKET_SIZE
    && counts[size / BUCKET_SIZE - 1] > 0
  }

  /** Allocation count of the bucket whose bound is size. */
  function CountAt(counts: seq<nat>, size: nat): nat
    requires IsObservedBound(counts, size)
  {
    counts[size / BUCKET_SIZE - 1]
  }

  predicate StrictlyAscending(s: seq<nat>)
  {
    forall j, k :: 0 <= j < k < |s| ==> s[j] < s[k]
  }

  // ---------------------------------------------------------------------
  // suggest_classes

  /** Counts of the buckets below n that mask selects. */
  function MaskedSum(counts: seq<nat>, mask: seq<bool>, n: nat): nat
    requires n <= |counts| && n <= |mask|
  {
    if n == 0 then 0 else MaskedSum(counts, mask, n - 1) + (if mask[n - 1] then counts[n - 1] else 0)
  }

  /** Number of buckets below n that mask selects. */
  function CountChosen(mask: seq<bool>, n: nat): nat
    requires n <= |mask|
  {
    if n == 0 then 0 else CountChosen(mask, n - 1) + (if mask[n - 1] then 1 else 0)
  }

  lemma {:induction false} MaskedSumNone(counts: seq<nat>, mask: seq<bool>, n: nat)
    requires n <= |counts| == |mask|
    requires forall b :: 0 <= b < n ==> !mask[b]
    ensures MaskedSum(counts, mask, n) == 0 && CountChosen(mask, n) == 0
  {
    if n > 0 {
      MaskedSumNone(counts, mask, n - 1);
    }
  }

  /** Selecting one more bucket adds its count and one pick. */
  lemma {:induction false} MaskedSumSelect(counts: seq<nat>, mask: seq<bool>, j: nat, n: nat)
    requires n <= |counts| == |mask| && j < |mask| && !mask[j]
    ensures MaskedSum(counts, mask[j := true], n) == MaskedSum(counts, mask, n) + (if j < n then counts[j] else 0)
    ensures CountChosen(mask[j := true], n) == CountChosen(mask, n) + (if j < n then 1 else 0)
  {
    if n > 0 {
      MaskedSumSelect(counts, mask, j, n - 1);
    }
  }

  /** A selection never counts more than all buckets, and counts all of them once every non-empty one is selected. */
  lemma {:induction false} MaskedSumBound(counts: seq<nat>, mask: seq<bool>, n: nat)
    requires n <= |counts| == |mask|
    ensures MaskedSum(counts, mask, n) <= RangeSum(counts, 0, n)
    ensures (forall b :: 0 <= b < n && counts[b] > 0 ==> mask[b]) ==> MaskedSum(counts, mask, n) == RangeSum(counts, 0, n)
  {
    if n > 0 {
      MaskedSumBound(counts, mask, n - 1);
    }
  }

  /** Sum of the counts of the buckets whose bounds are listed. */
  function CoveredBy(counts: seq<nat>, sizes: seq<nat>): nat
    requires forall k :: 0 <= k < |sizes| ==> IsObservedBound(counts, sizes[k])
  {
    if |sizes| == 0 then 0
    else CoveredBy(counts, sizes[..|sizes| - 1]) + CountAt(counts, sizes[|sizes| - 1])
  }

  /** Entry k has the smallest count among the listed buckets. */
  predicate IsLeastTaken(counts: seq<nat>, sizes: seq<nat>, k: nat)
    requires forall j :: 0 <= j < |sizes| ==> IsObservedBound(counts, sizes[j])
    requires k < |sizes|
  {
    forall j :: 0 <= j < |sizes| ==> CountAt(counts, sizes[k]) <= CountAt(counts, sizes[j])
  }

  /** Selected buckets are non-empty and none of them has fewer allocations than an unselected one. */
  ghost predicate TopTaken(counts: seq<nat>, chosen: seq<bool>)
  {
    |chosen| == |counts|
    && (forall b :: 0 <= b < |chosen| && chosen[b] ==> counts[b] > 0)
    && (forall b, c :: 0 <= b < |chosen| && 0 <= c < |chosen| && chosen[b] && !chosen[c] ==> counts[c] <= counts[b])
  }

  /** Bucket last is selected and has the fewest allocations among the selected. */
  ghost predicate LeastChosen(counts: seq<nat>, chosen: seq<bool>, last: nat)
    requires |chosen| == |counts|
  {
    last < |chosen| && chosen[last] && forall b :: 0 <= b < |chosen| && chosen[b] ==> counts[last] <= counts[b]
  }

  /**
   * The unchosen non-empty bucket with the largest count (the first one on
   * ties): the next element of the count-descending order that
   * suggest_classes walks.
   */
  method PickLargest(counts: seq<nat>, chosen: seq<bool>) returns (best: nat)
    requires |counts| == |chosen|
    requires exists b :: 0 <= b < |counts| && !chosen[b] && counts[b] > 0
    ensures best < |counts| && !chosen[best] && counts[best] > 0
    ensures forall b :: 0 <= b < |counts| && !chosen[b] ==> counts[b] <= counts[best]
  {
    var found := false;
    best := 0;
    var b := 0;
    while b < |counts|
      invariant 0 <= b <= |counts|
      invariant found ==> best < b && !chosen[best] && counts[best] > 0
      invariant found ==> forall c :: 0 <= c < b && !chosen[c] ==> counts[c] <= counts[best]
      invariant !found ==> forall c :: 0 <= c < b ==> chosen[c] || counts[c] == 0
    {
      if !chosen[b] && counts[b] > 0 && (!found || counts[b] > counts[best]) {
        best := b;
        found := true;
      }
      b := b + 1;
    }
  }

  /** Taking the largest unselected bucket keeps the selection top-heavy and makes that bucket the least selected. */
  lemma SelectLargest(counts: seq<nat>, chosen: seq<bool>, best: nat)
    requires TopTaken(counts, chosen)
    requires best < |counts| && !chosen[best] && counts[best] > 0
    requires forall b :: 0 <= b < |counts| && !chosen[b] ==> counts[b] <= counts[best]
    ensures TopTaken(counts, chosen[best := true])
    ensures LeastChosen(counts, chosen[best := true], best)
    ensures MaskedSum(counts, chosen[best := true], |counts|) == MaskedSum(counts, chosen, |counts|) + counts[best]
    ensures CountChosen(chosen[best := true], |counts|) == CountChosen(chosen, |counts|) + 1
    ensures MaskedSum(counts, chosen[best := true], |counts|) <= Total(counts)
  {
    MaskedSumSelect(counts, chosen, best, |counts|);
    MaskedSumBound(counts, chosen[best := true], |counts|);
  }

  /**
   * suggest_classes, with the coverage target already computed as an integer
   * (the source multiplies the total by the clamped coverage fraction).
   * Buckets are taken by decreasing count until their counts reach the
   * target; the result lists their bounds in ascending order.
   */
  method SuggestClasses(snap: Snapshot, target: nat) returns (sizes: seq<nat>)
    requires |snap.counts| == NUM_BUCKETS
    requires target <= Total(snap.counts)
    ensures Total(snap.counts) == 0 ==> sizes == []
    ensures StrictlyAscending(sizes)
    ensures forall k :: 0 <= k < |sizes| ==> IsObservedBound(snap.counts, sizes[k])
    ensures Total(snap.counts) > 0 ==> |sizes| >= 1 && CoveredBy(snap.counts, sizes) >= target
    // every bucket left out has no more allocations than any bucket taken
    ensures forall k, b :: 0 <= k < |sizes| && 0 <= b < NUM_BUCKETS && snap.counts[b] > 0 && Bound(b) !in sizes ==>
      snap.counts[b] <= CountAt(snap.counts, sizes[k])
    // taking stopped as soon as the target was reached
    ensures |sizes| <= 1 || forall k :: 0 <= k < |sizes| && IsLeastTaken(snap.counts, sizes, k) ==>
      CoveredBy(snap.counts, sizes) - CountAt(snap.counts, sizes[k]) < target
  {
    var counts := snap.counts;
    if Total(counts) == 0 {
      return [];
    }
    var chosen, last := SelectBuckets(counts, target);
    sizes := ChosenBounds(chosen, NUM_BUCKETS);
    SuggestOutcome(counts, chosen, target, last);
  }

  /**
   * The walk over the buckets in decreasing count order: each step takes the
   * largest bucket not yet taken, until the taken counts reach the target.
   */
  method SelectBuckets(counts: seq<nat>, target: nat) returns (chosen: seq<bool>, ghost last: nat)
    requires |counts| == NUM_BUCKETS && 0 < Total(counts) && target <= Total(counts)
    ensures TopTaken(counts, chosen) && |chosen| == NUM_BUCKETS
    ensures LeastChosen(counts, chosen, last)
    ensures MaskedSum(counts, chosen, NUM_BUCKETS) >= target
    ensures CountChosen(chosen, NUM_BUCKETS) == 1 || MaskedSum(counts, chosen, NUM_BUCKETS) - counts[last] < target
  {
    var total := Total(counts);
    chosen := seq(NUM_BUCKETS, _ => false);
    var covered := 0;
    var picks := 0;
    last := 0;
    MaskedSumNone(counts, chosen, NUM_BUCKETS);
    while true
      invariant TopTaken(counts, chosen) && |chosen| == NUM_BUCKETS
      invariant covered == MaskedSum(counts, chosen, NUM_BUCKETS) < total
      invariant picks == CountChosen(chosen, NUM_BUCKETS)
      invariant picks > 0 ==> LeastChosen(counts, chosen, last) && covered < target
      decreases total - covered
    {
      SomeUntaken(counts, chosen);
      var best := PickLargest(counts, chosen);
      SelectLargest(counts, chosen, best);
      chosen := chosen[best := true];
      covered := covered + counts[best];
      picks := picks + 1;
      last := best;
      if covered >= target {
        return;
      }
    }
  }

  /** Below the total, some non-empty bucket is still untaken. */
  lemma SomeUntaken(counts: seq<nat>, chosen: seq<bool>)
    requires |counts| == |chosen| && MaskedSum(counts, chosen, |counts|) < Total(counts)
    ensures exists b :: 0 <= b < |counts| && !chosen[b] && counts[b] > 0
  {
    MaskedSumBound(counts, chosen, |counts|);
  }

  /** The facts about the final selection, restated for the listed bounds. */
  lemma SuggestOutcome(counts: seq<nat>, chosen: seq<bool>, target: nat, last: nat)
    requires TopTaken(counts, chosen) && |chosen| == NUM_BUCKETS
    requires LeastChosen(counts, chosen, last)
    requires MaskedSum(counts, chosen, NUM_BUCKETS) >= target
    requires CountChosen(chosen, NUM_BUCKETS) == 1 || MaskedSum(counts, chosen, NUM_BUCKETS) - counts[last] < target
    ensures var sizes := ChosenBounds(chosen, NUM_BUCKETS);
      StrictlyAscending(sizes)
      && (forall k :: 0 <= k < |sizes| ==> IsObservedBound(counts, sizes[k]))
      && |sizes| >= 1 && CoveredBy(counts, sizes) >= target
      && (forall k, b :: 0 <= k < |sizes| && 0 <= b < NUM_BUCKETS && counts[b] > 0 && Bound(b) !in sizes ==>
            counts[b] <= CountAt(counts, sizes[k]))
      && (|sizes| <= 1 || forall k :: 0 <= k < |sizes| && IsLeastTaken(counts, sizes, k) ==>
            CoveredBy(counts, sizes) - CountAt(counts, sizes[k]) < target)
  {
    var sizes := ChosenBounds(chosen, NUM_BUCKETS);
    ChosenBoundsShape(counts, chosen, NUM_BUCKETS);
    ChosenBoundsMembers(chosen, NUM_BUCKETS);
    ChosenBoundsCovered(counts, chosen, NUM_BUCKETS);
    TakenDominate(counts, chosen, sizes);
    StopAtTarget(counts, chosen, sizes, target, last);
  }

  /** The sort step: bounds of the selected buckets below n, in ascending order. */
  function ChosenBounds(chosen: seq<bool>, n: nat): seq<nat>
    requires n <= |chosen|
  {
    if n == 0 then [] else ChosenBounds(chosen, n - 1) + (if chosen[n - 1] then [Bound(n - 1)] else [])
  }

  lemma {:induction false} ChosenBoundsShape(counts: seq<nat>, chosen: seq<bool>, n: nat)
    requires n <= |chosen| == |counts| && TopTaken(counts, chosen)
    ensures var s := ChosenBounds(chosen, n);
      StrictlyAscending(s)
      && forall k :: 0 <= k < |s| ==> IsObservedBound(counts, s[k]) && chosen[s[k] / BUCKET_SIZE - 1] && s[k] <= n * BUCKET_SIZE
  {
    if n > 0 {
      ChosenBoundsShape(counts, chosen, n - 1);
      var s := ChosenBounds(chosen, n - 1);
      if chosen[n - 1] {
        var x := Bound(n - 1);
        assert x / BUCKET_SIZE - 1 == n - 1 && x == n * BUCKET_SIZE;
        assert IsObservedBound(counts, x);
        var t := s + [x];
        assert ChosenBounds(chosen, n) == t;
        forall k | 0 <= k < |t|
          ensures IsObservedBound(counts, t[k]) && chosen[t[k] / BUCKET_SIZE - 1] && t[k] <= n * BUCKET_SIZE
        {
          if k < |s| {
            assert t[k] == s[k];
          }
        }
      } else {
        assert ChosenBounds(chosen, n) == s;
      }
    }
  }

  lemma {:induction false} ChosenBoundsMembers(chosen: seq<bool>, n: nat)
    requires n <= |chosen|
    ensures forall b :: 0 <= b < |chosen| ==> (Bound(b) in ChosenBounds(chosen, n) <==> b < n && chosen[b])
    ensures |ChosenBounds(chosen, n)| == CountChosen(chosen, n)
  {
    if n > 0 {
      ChosenBoundsMembers(chosen, n - 1);
    }
  }

  lemma {:induction false} ChosenBoundsCovered(counts: seq<nat>, chosen: seq<bool>, n: nat)
    requires n <= |chosen| == |counts| && TopTaken(counts, chosen)
    ensures forall k :: 0 <= k < |ChosenBounds(chosen, n)| ==> IsObservedBound(counts, ChosenBounds(chosen, n)[k])
    ensures CoveredBy(counts, ChosenBounds(chosen, n)) == MaskedSum(counts, chosen, n)
  {
    ChosenBoundsShape(counts, chosen, n);
    if n > 0 {
      ChosenBoundsCovered(counts, chosen, n - 1);
      var s := ChosenBounds(chosen, n - 1);
      if chosen[n - 1] {
        assert (s + [Bound(n - 1)])[..|s|] == s;
        assert Bound(n - 1) / BUCKET_SIZE - 1 == n - 1;
      } else {
        assert s + [] == s;
      }
    }
  }

  /** A bucket not listed has no more allocations than any bucket listed. */
  lemma TakenDominate(counts: seq<nat>, chosen: seq<bool>, sizes: seq<nat>)
    requires TopTaken(counts, chosen) && |chosen| == NUM_BUCKETS
    requires forall k :: 0 <= k < |sizes| ==> IsObservedBound(counts, sizes[k]) && chosen[sizes[k] / BUCKET_SIZE - 1]
    requires forall b :: 0 <= b < NUM_BUCKETS ==> (Bound(b) in sizes <==> chosen[b])
    ensures forall k, b :: 0 <= k < |sizes| && 0 <= b < NUM_BUCKETS && counts[b] > 0 && Bound(b) !in sizes ==>
      counts[b] <= CountAt(counts, sizes[k])
  {
  }

  /** Dropping a least-count listed bucket leaves the coverage below the target. */
  lemma StopAtTarget(counts: seq<nat>, chosen: seq<bool>, sizes: seq<nat>, target: nat, last: nat)
    requires |counts| == |chosen| == NUM_BUCKETS && LeastChosen(counts, chosen, last)
    requires forall k :: 0 <= k < |sizes| ==> IsObservedBound(counts, sizes[k]) && chosen[sizes[k] / BUCKET_SIZE - 1]
    requires forall b :: 0 <= b < NUM_BUCKETS ==> (Bound(b) in sizes <==> chosen[b])
    requires |sizes| == 1 || CoveredBy(counts, sizes) - counts[last] < target
    ensures |sizes| <= 1 || forall k :: 0 <= k < |sizes| && IsLeastTaken(counts, sizes, k) ==>
      CoveredBy(counts, sizes) - CountAt(counts, sizes[k]) < target
  {
    hide CoveredBy;
    assert Bound(last) in sizes;
    var j :| 0 <= j < |sizes| && sizes[j] == Bound(last);
    assert sizes[j] / BUCKET_SIZE - 1 == last;
    forall k | 0 <= k < |sizes| && IsLeastTaken(counts, sizes, k)
      ensures CountAt(counts, sizes[k]) == counts[last]
    {
      assert CountAt(counts, sizes[k]) <= CountAt(counts, sizes[j]);
    }
  }

  // ---------------------------------------------------------------------
  // optimal_layout

  /** A class range of the merge loop: class size, allocation count, estimated waste. */
  datatype Range = Range(classSize: nat, count: nat, waste: nat)

  /** One past the last bucket a range serves: its class size in buckets. */
  function Hi(r: Range): nat
  {
    r.classSize / BUCKET_SIZE
  }

  /**
   * Estimated waste of serving buckets lo..hi-1 with class size cls: each
   * allocation in bucket b is assumed to be b*8 + 1 bytes.
   */
  function WasteSum(counts: seq<nat>, lo: nat, hi: nat, cls: nat): nat
    requires lo <= hi <= |counts| && cls >= hi * BUCKET_SIZE
    decreases hi - lo
  {
    if lo == hi then 0
    else WasteSum(counts, lo, hi - 1, cls) + counts[hi - 1] * (cls - ((hi - 1) * BUCKET_SIZE + 1))
  }

  lemma {:induction false} WasteSumSplit(counts: seq<nat>, lo: nat, mid: nat, hi: nat, cls: nat)
    requires lo <= mid <= hi <= |counts| && cls >= hi * BUCKET_SIZE
    ensures WasteSum(counts, lo, hi, cls) == WasteSum(counts, lo, mid, cls) + WasteSum(counts, mid, hi, cls)
    decreases hi - mid
  {
    if mid < hi {
      WasteSumSplit(counts, lo, mid, hi - 1, cls);
    }
  }

  /** Serving the same buckets with a larger class costs (larger - smaller) bytes more per allocation. */
  lemma {:induction false} WasteSumShift(counts: seq<nat>, lo: nat, hi: nat, c1: nat, c2: nat)
    requires lo <= hi <= |counts| && c2 >= c1 >= hi * BUCKET_SIZE
    ensures WasteSum(counts, lo, hi, c2) == WasteSum(counts, lo, hi, c1) + RangeSum(counts, lo, hi) * (c2 - c1)
    decreases hi - lo
  {
    if lo < hi {
      WasteSumShift(counts, lo, hi - 1, c1, c2);
      var b := hi - 1;
      var w1 := c1 - (b * BUCKET_SIZE + 1);
      assert c2 - (b * BUCKET_SIZE + 1) == w1 + (c2 - c1);
      assert counts[b] * (w1 + (c2 - c1)) == counts[b] * w1 + counts[b] * (c2 - c1);
      assert RangeSum(counts, lo, hi) * (c2 - c1) == RangeSum(counts, lo, b) * (c2 - c1) + counts[b] * (c2 - c1);
    }
  }

  lemma {:induction false} WasteSumZero(counts: seq<nat>, lo: nat, hi: nat, cls: nat)
    requires lo <= hi <= |counts| && cls >= hi * BUCKET_SIZE
    requires RangeSum(counts, lo, hi) == 0
    ensures WasteSum(counts, lo, hi, cls) == 0
    decreases hi - lo
  {
    if lo < hi {
      WasteSumZero(counts, lo, hi - 1, cls);
    }
  }

  /** First bucket served by range k: the one after the previous range's class. */
  function Lo(ranges: seq<Range>, k: nat): nat
    requires k < |ranges|
  {
    if k == 0 then 0 else Hi(ranges[k - 1])
  }

  /** Range k serves buckets Lo..Hi-1, its class bounds a non-empty bucket, and its count and waste are those buckets'. */
  ghost predicate RangeOk(counts: seq<nat>, ranges: seq<Range>, k: nat)
  {
    k < |ranges| && IsObservedBound(counts, ranges[k].classSize)
    && Lo(ranges, k) < Hi(ranges[k])
    && ranges[k].count == RangeSum(counts, Lo(ranges, k), Hi(ranges[k]))
    && ranges[k].waste == WasteSum(counts, Lo(ranges, k), Hi(ranges[k]), ranges[k].classSize)
  }

  /** The ranges partition the tracked buckets, and no allocation lies above the last class. */
  ghost predicate Partition(counts: seq<nat>, ranges: seq<Range>)
  {
    |counts| == NUM_BUCKETS && |ranges| >= 1
    && (forall k :: 0 <= k < |ranges| ==> RangeOk(counts, ranges, k))
    && Hi(ranges[|ranges| - 1]) <= NUM_BUCKETS
    && forall b :: Hi(ranges[|ranges| - 1]) <= b < |counts| ==> counts[b] == 0
  }

  /** Under a partition the classes are strictly ascending. */
  lemma PartitionAscending(counts: seq<nat>, ranges: seq<Range>)
    requires Partition(counts, ranges)
    ensures forall j, k :: 0 <= j < k < |ranges| ==> ranges[j].classSize < ranges[k].classSize
  {
    forall j, k | 0 <= j < k < |ranges|
      ensures ranges[j].classSize < ranges[k].classSize
    {
      AscendingFrom(counts, ranges, j, k);
    }
  }

  lemma {:induction false} AscendingFrom(counts: seq<nat>, ranges: seq<Range>, j: nat, k: nat)
    requires Partition(counts, ranges) && j < k < |ranges|
    ensures Hi(ranges[j]) < Hi(ranges[k]) && ranges[j].classSize < ranges[k].classSize
    decreases k - j
  {
    assert RangeOk(counts, ranges, k) && RangeOk(counts, ranges, j);
    if j + 1 < k {
      AscendingFrom(counts, ranges, j, k - 1);
    }
  }

  /** Adding cost of merging range i into range i+1: range i's allocations grow to the right class. */
  function MergeCost(ranges: seq<Range>, i: nat): nat
    requires i + 1 < |ranges|
  {
    ranges[i].count * (if ranges[i + 1].classSize >= ranges[i].classSize then ranges[i + 1].classSize - ranges[i].classSize else 0)
  }

  /** min_by_key over 0..n: the first i < n with the smallest MergeCost. */
  function CheapestMerge(ranges: seq<Range>, n: nat): (best: nat)
    requires 1 <= n < |ranges|
    ensures best < n
    ensures forall j :: 0 <= j < n ==> MergeCost(ranges, best) <= MergeCost(ranges, j)
    ensures forall j :: 0 <= j < best ==> MergeCost(ranges, best) < MergeCost(ranges, j)
  {
    if n == 1 then 0
    else
      var b := CheapestMerge(ranges, n - 1);
      if MergeCost(ranges, n - 1) < MergeCost(ranges, b) then n - 1 else b
  }

  /** Ranges i and i+1 replaced by one with the right class, the summed count and the merged waste. */
  function Merge(ranges: seq<Range>, i: nat): (r: seq<Range>)
    requires i + 1 < |ranges|
    ensures |r| == |ranges| - 1
    ensures forall k :: 0 <= k < i ==> r[k] == ranges[k]
    ensures forall k :: i < k < |r| ==> r[k] == ranges[k + 1]
    ensures r[i].classSize == ranges[i + 1].classSize
    ensures r[i].count == ranges[i].count + ranges[i + 1].count
  {
    var merged := Range(ranges[i + 1].classSize, ranges[i].count + ranges[i + 1].count,
      ranges[i].waste + MergeCost(ranges, i) + ranges[i + 1].waste);
    ranges[..i] + [merged] + ranges[i + 2..]
  }

  /** The merged range's waste exceeds maxWaste (= num/den) of its allocated bytes. */
  predicate MergeTooWasteful(ranges: seq<Range>, i: nat, num: nat, den: nat)
    requires i + 1 < |ranges|
  {
    var mergedWaste := ranges[i].waste + MergeCost(ranges, i) + ranges[i + 1].waste;
    var mergedCount := ranges[i].count + ranges[i + 1].count;
    mergedWaste * den > num * (mergedCount * ranges[i + 1].classSize)
  }

  /** A merge keeps the partition: the counts add up and the waste is re-priced at the right class. */
  lemma MergePreservesPartition(counts: seq<nat>, ranges: seq<Range>, i: nat)
    requires Partition(counts, ranges) && i + 1 < |ranges|
    ensures Partition(counts, Merge(ranges, i))
  {
    var r := Merge(ranges, i);
    assert RangeOk(counts, ranges, i) && RangeOk(counts, ranges, i + 1);
    var lo := Lo(ranges, i);
    var mid := Hi(ranges[i]);
    var hi := Hi(ranges[i + 1]);
    var cls := ranges[i + 1].classSize;
    assert Lo(ranges, i + 1) == mid;
    RangeSumSplit(counts, lo, mid, hi);
    WasteSumSplit(counts, lo, mid, hi, cls);
    assert mid * BUCKET_SIZE == ranges[i].classSize;
    WasteSumShift(counts, lo, mid, ranges[i].classSize, cls);
    assert Lo(r, i) == lo;
    assert RangeOk(counts, r, i);
    forall k | 0 <= k < |r|
      ensures RangeOk(counts, r, k)
    {
      if k < i {
        assert RangeOk(counts, ranges, k);
        assert Lo(r, k) == Lo(ranges, k);
      } else if k > i {
        assert RangeOk(counts, ranges, k + 1);
        assert Lo(r, k) == Lo(ranges, k + 1);
      }
    }
    assert Hi(r[|r| - 1]) == Hi(ranges[|ranges| - 1]);
  }

  function SumCounts(ranges: seq<Range>): nat
  {
    if |ranges| == 0 then 0 else SumCounts(ranges[..|ranges| - 1]) + ranges[|ranges| - 1].count
  }

  function SumWaste(ranges: seq<Range>): nat
  {
    if |ranges| == 0 then 0 else SumWaste(ranges[..|ranges| - 1]) + ranges[|ranges| - 1].waste
  }

  function SumBytes(ranges: seq<Range>): nat
  {
    if |ranges| == 0 then 0
    else SumBytes(ranges[..|ranges| - 1]) + ranges[|ranges| - 1].classSize * ranges[|ranges| - 1].count
  }

  /** Under a partition the ranges hold every tracked allocation. */
  lemma PartitionTotal(counts: seq<nat>, ranges: seq<Range>)
    requires Partition(counts, ranges)
    ensures SumCounts(ranges) == Total(counts)
  {
    PartitionPrefix(counts, ranges, |ranges|);
    assert ranges[..|ranges|] == ranges;
    RangeSumZero(counts, Hi(ranges[|ranges| - 1]), NUM_BUCKETS);
    RangeSumSplit(counts, 0, Hi(ranges[|ranges| - 1]), NUM_BUCKETS);
  }

  lemma {:induction false} PartitionPrefix(counts: seq<nat>, ranges: seq<Range>, n: nat)
    requires Partition(counts, ranges) && 1 <= n <= |ranges|
    ensures Hi(ranges[n - 1]) <= NUM_BUCKETS && SumCounts(ranges[..n]) == RangeSum(counts, 0, Hi(ranges[n - 1]))
  {
    assert ranges[..n][..n - 1] == ranges[..n - 1];
    assert RangeOk(counts, ranges, n - 1);
    if n > 1 {
      PartitionPrefix(counts, ranges, n - 1);
      RangeSumSplit(counts, 0, Lo(ranges, n - 1), Hi(ranges[n - 1]));
    }
  }

  /** The integer parts of ClassLayout: its classes and the totals its two ratios divide. */
  datatype ClassLayout = ClassLayout(classes: seq<nat>, totalCount: nat, totalWaste: nat, totalAllocBytes: nat)

  function ClassesOf(ranges: seq<Range>): (cs: seq<nat>)
    ensures |cs| == |ranges|
    ensures forall k :: 0 <= k < |ranges| ==> cs[k] == ranges[k].classSize
  {
    seq(|ranges|, k requires 0 <= k < |ranges| => ranges[k].classSize)
  }

  /** Class sizes a layout can have: ascending bounds of non-empty buckets. */
  predicate ValidClasses(counts: seq<nat>, classes: seq<nat>)
  {
    StrictlyAscending(classes) && forall k :: 0 <= k < |classes| ==> IsObservedBound(counts, classes[k])
  }

  /** The ranges a list of classes induces: class k serves the buckets after class k-1 up to its own bound. */
  function RangesOf(counts: seq<nat>, classes: seq<nat>): (rs: seq<Range>)
    requires ValidClasses(counts, classes)
    ensures |rs| == |classes|
    ensures forall k :: 0 <= k < |classes| ==> rs[k] == RangeAt(counts, classes, k)
  {
    seq(|classes|, k requires 0 <= k < |classes| => RangeAt(counts, classes, k))
  }

  /** The range of class k: the buckets above class k-1 up to class k. */
  function RangeAt(counts: seq<nat>, classes: seq<nat>, k: nat): Range
    requires ValidClasses(counts, classes) && k < |classes|
  {
    var lo := if k == 0 then 0 else classes[k - 1] / BUCKET_SIZE;
    var hi := classes[k] / BUCKET_SIZE;
    Range(classes[k], RangeSum(counts, lo, hi), WasteSum(counts, lo, hi, classes[k]))
  }

  /** A partition is exactly the ranges its classes induce. */
  lemma PartitionIsRangesOf(counts: seq<nat>, ranges: seq<Range>)
    requires Partition(counts, ranges)
    ensures ValidClasses(counts, ClassesOf(ranges))
    ensures RangesOf(counts, ClassesOf(ranges)) == ranges
  {
    PartitionAscending(counts, ranges);
    var cs := ClassesOf(ranges);
    forall k | 0 <= k < |ranges|
      ensures IsObservedBound(counts, cs[k])
    {
      assert RangeOk(counts, ranges, k);
    }
    assert ValidClasses(counts, cs);
    var rs := RangesOf(counts, cs);
    forall k | 0 <= k < |ranges|
      ensures rs[k] == ranges[k]
    {
      RangeAtOfPartition(counts, ranges, cs, k);
    }
  }

  lemma RangeAtOfPartition(counts: seq<nat>, ranges: seq<Range>, cs: seq<nat>, k: nat)
    requires Partition(counts, ranges) && cs == ClassesOf(ranges) && ValidClasses(counts, cs) && k < |ranges|
    ensures RangeAt(counts, cs, k) == ranges[k]
  {
    assert RangeOk(counts, ranges, k);
    assert Lo(ranges, k) == if k == 0 then 0 else cs[k - 1] / BUCKET_SIZE;
  }

  /** Number of non-empty buckets below n. */
  function NonEmptyBuckets(counts: seq<nat>, n: nat): nat
    requires n <= |counts|
  {
    if n == 0 then 0 else NonEmptyBuckets(counts, n - 1) + (if counts[n - 1] > 0 then 1 else 0)
  }

  function LastHi(ranges: seq<Range>): nat
  {
    if |ranges| == 0 then 0 else Hi(ranges[|ranges| - 1])
  }

  /** The ranges optimal_layout starts from: one per non-empty bucket below n, in bucket order. */
  function BucketRanges(counts: seq<nat>, n: nat): seq<Range>
    requires n <= |counts|
  {
    if n == 0 then []
    else
      var last := if counts[n - 1] > 0 then [Range(n * BUCKET_SIZE, counts[n - 1], counts[n - 1] * (BUCKET_SIZE - 1))] else [];
      BucketRanges(counts, n - 1) + last
  }

  /** A range that takes the buckets from the last range's top up to its own keeps every range well formed. */
  lemma AppendRangeOk(counts: seq<nat>, ranges: seq<Range>, r: Range)
    requires forall k :: 0 <= k < |ranges| ==> RangeOk(counts, ranges, k)
    requires IsObservedBound(counts, r.classSize) && LastHi(ranges) < Hi(r)
    requires r.count == RangeSum(counts, LastHi(ranges), Hi(r))
    requires r.waste == WasteSum(counts, LastHi(ranges), Hi(r), r.classSize)
    ensures forall k :: 0 <= k < |ranges| + 1 ==> RangeOk(counts, ranges + [r], k)
  {
    var rs := ranges + [r];
    forall k | 0 <= k < |rs|
      ensures RangeOk(counts, rs, k)
    {
      if k < |ranges| {
        assert RangeOk(counts, ranges, k);
        assert Lo(rs, k) == Lo(ranges, k);
      } else {
        assert Lo(rs, k) == LastHi(ranges);
      }
    }
  }

  /** The per-bucket ranges below n are well formed, tile the buckets up to the last non-empty one, and waste 7 bytes per allocation. */
  lemma {:induction false} BucketRangesOk(counts: seq<nat>, n: nat)
    requires n <= |counts|
    ensures var rs := BucketRanges(counts, n);
      && |rs| == NonEmptyBuckets(counts, n)
      && (forall k :: 0 <= k < |rs| ==> RangeOk(counts, rs, k))
      && (forall k :: 0 <= k < |rs| ==> Hi(rs[k]) <= n)
      && (forall k :: 0 <= k < |rs| ==> rs[k].waste == rs[k].count * (BUCKET_SIZE - 1))
      && LastHi(rs) <= n && RangeSum(counts, LastHi(rs), n) == 0
  {
    if n > 0 {
      var i := n - 1;
      BucketRangesOk(counts, i);
      var ranges := BucketRanges(counts, i);
      var lo := LastHi(ranges);
      RangeSumSplit(counts, lo, i, i + 1);
      var c := counts[i];
      if c > 0 {
        var classSize := (i + 1) * BUCKET_SIZE;
        var r := Range(classSize, c, c * (BUCKET_SIZE - 1));
        assert Hi(r) == i + 1;
        assert WasteSum(counts, lo, i + 1, classSize) == r.waste by {
          WasteSumZero(counts, lo, i, classSize);
          WasteSumSplit(counts, lo, i, i + 1, classSize);
        }
        assert IsObservedBound(counts, classSize);
        assert BucketRanges(counts, n) == ranges + [r];
        assert LastHi(ranges + [r]) == n && RangeSum(counts, n, n) == 0;
        hide RangeOk, WasteSum, RangeSum, IsObservedBound, BucketRanges;
        AppendRangeOk(counts, ranges, r);
      } else {
        assert BucketRanges(counts, n) == ranges;
        hide RangeOk, WasteSum, BucketRanges;
      }
    }
  }

  /** One range per non-empty bucket, ascending, each with 7 bytes of waste per allocation. */
  method InitialRanges(counts: seq<nat>) returns (ranges: seq<Range>)
    requires |counts| == NUM_BUCKETS
    ensures |ranges| == NonEmptyBuckets(counts, NUM_BUCKETS)
    ensures |ranges| == 0 <==> Total(counts) == 0
    ensures |ranges| > 0 ==> Partition(counts, ranges)
    ensures forall k :: 0 <= k < |ranges| ==> ranges[k].waste == ranges[k].count * (BUCKET_SIZE - 1)
    ensures ranges == BucketRanges(counts, NUM_BUCKETS)
  {
    ranges := [];
    var i := 0;
    while i < NUM_BUCKETS
      invariant 0 <= i <= NUM_BUCKETS
      invariant ranges == BucketRanges(counts, i)
    {
      var c := counts[i];
      if c > 0 {
        var classSize := (i + 1) * BUCKET_SIZE;
        ranges := ranges + [Range(classSize, c, c * (classSize - (i * BUCKET_SIZE + 1)))];
      }
      i := i + 1;
    }
    BucketRangesOk(counts, NUM_BUCKETS);
    if |ranges| == 0 {
      assert Total(counts) == 0;
    } else {
      assert RangeOk(counts, ranges, 0);
      RangeSumZero(counts, 0, NUM_BUCKETS);
      RangeSumZero(counts, LastHi(ranges), NUM_BUCKETS);
    }
  }

  /**
   * optimal_layout, with max_waste_pct as the rational wasteNum / wasteDen:
   * start from one range per non-empty bucket, then repeatedly merge the
   * cheapest adjacent pair while there are more than maxClasses ranges and
   * the merged range's waste ratio stays within the limit.
   */
  method OptimalLayout(snap: Snapshot, maxClasses: nat, wasteNum: nat, wasteDen: nat) returns (layout: ClassLayout)
    requires |snap.counts| == NUM_BUCKETS && wasteDen > 0
    ensures Total(snap.counts) == 0 ==> layout == ClassLayout([], 0, 0, 0)
    ensures Total(snap.counts) > 0 ==> 1 <= |layout.classes| <= NonEmptyBuckets(snap.counts, NUM_BUCKETS)
    ensures ValidClasses(snap.counts, layout.classes)
    // every tracked allocation is served: nothing lies above the largest class
    ensures |layout.classes| > 0 ==>
      forall b :: layout.classes[|layout.classes| - 1] / BUCKET_SIZE <= b < NUM_BUCKETS ==> snap.counts[b] == 0
    ensures layout.totalCount == Total(snap.counts)
    ensures layout.totalWaste == SumWaste(RangesOf(snap.counts, layout.classes))
    ensures layout.totalAllocBytes == SumBytes(RangesOf(snap.counts, layout.classes))
    // with few enough non-empty buckets nothing is merged
    ensures NonEmptyBuckets(snap.counts, NUM_BUCKETS) <= maxClasses ==>
      |layout.classes| == NonEmptyBuckets(snap.counts, NUM_BUCKETS)
    // merging stops above maxClasses only when the cheapest merge is too wasteful
    ensures |layout.classes| > maxClasses && |layout.classes| >= 2 ==>
      var rs := RangesOf(snap.counts, layout.classes);
      MergeTooWasteful(rs, CheapestMerge(rs, |rs| - 1), wasteNum, wasteDen)
    // merging never leaves fewer than maxClasses classes (nor none)
    ensures Total(snap.counts) > 0 ==>
      |layout.classes| == NonEmptyBuckets(snap.counts, NUM_BUCKETS) || maxClasses <= |layout.classes|
    // the classes are those of the greedy merge of the per-bucket ranges
    ensures layout.classes == ClassesOf(Greedy(BucketRanges(snap.counts, NUM_BUCKETS), maxClasses, wasteNum, wasteDen))
  {
    hide *;
    var counts := snap.counts;
    var ranges := InitialRanges(counts);
    if |ranges| == 0 {
      EmptyLayout(counts);
      return ClassLayout([], 0, 0, 0);
    }
    var merged := MergeRanges(counts, ranges, maxClasses, wasteNum, wasteDen);
    layout := ClassLayout(ClassesOf(merged), SumCounts(merged), SumWaste(merged), SumBytes(merged));
    PartitionLayout(counts, merged, layout);
    GreedyLayout(counts, ranges, merged, layout, maxClasses, wasteNum, wasteDen);
  }

  /** The empty layout has valid classes and zero totals. */
  lemma EmptyLayout(counts: seq<nat>)
    ensures ValidClasses(counts, [])
    ensures SumWaste(RangesOf(counts, [])) == 0 && SumBytes(RangesOf(counts, [])) == 0
  {
    assert RangesOf(counts, []) == [];
  }

  /** What the greedy merge of the per-bucket ranges says about the layout's class count. */
  lemma GreedyLayout(counts: seq<nat>, ranges: seq<Range>, merged: seq<Range>, layout: ClassLayout,
                     maxClasses: nat, num: nat, den: nat)
    requires |counts| == NUM_BUCKETS && |ranges| == NonEmptyBuckets(counts, NUM_BUCKETS) && |ranges| > 0
    requires merged == Greedy(ranges, maxClasses, num, den)
    requires layout.classes == ClassesOf(merged) && ValidClasses(counts, layout.classes)
    requires RangesOf(counts, layout.classes) == merged
    ensures 1 <= |layout.classes| <= NonEmptyBuckets(counts, NUM_BUCKETS)
    ensures NonEmptyBuckets(counts, NUM_BUCKETS) <= maxClasses ==>
      |layout.classes| == NonEmptyBuckets(counts, NUM_BUCKETS)
    ensures |layout.classes| > maxClasses && |layout.classes| >= 2 ==>
      var rs := RangesOf(counts, layout.classes);
      MergeTooWasteful(rs, CheapestMerge(rs, |rs| - 1), num, den)
    ensures |layout.classes| == NonEmptyBuckets(counts, NUM_BUCKETS) || maxClasses <= |layout.classes|
  {
    GreedyStops(ranges, maxClasses, num, den);
    hide *;
    assert |layout.classes| == |merged|;
  }

  /**
   * The greedy merge of optimal_layout as a function: while there are more
   * than maxClasses ranges (and at least two), merge the cheapest adjacent
   * pair unless the merged range would be too wasteful.
   */
  function Greedy(rs: seq<Range>, maxClasses: nat, num: nat, den: nat): (r: seq<Range>)
    ensures |r| <= |rs|
    ensures |rs| <= maxClasses ==> r == rs
    decreases |rs|
  {
    if |rs| <= maxClasses || |rs| < 2 then rs
    else
      var i := CheapestMerge(rs, |rs| - 1);
      if MergeTooWasteful(rs, i, num, den) then rs
      else Greedy(Merge(rs, i), maxClasses, num, den)
  }

  /**
   * Where the greedy merge stops: a merge happens only above maxClasses, so
   * merging never goes below it (nor below one range); and it stops above
   * maxClasses only when the cheapest merge is too wasteful.
   */
  lemma {:induction false} GreedyStops(rs: seq<Range>, maxClasses: nat, num: nat, den: nat)
    ensures var r := Greedy(rs, maxClasses, num, den);
      r == rs || (maxClasses <= |r| && 1 <= |r|)
    ensures var r := Greedy(rs, maxClasses, num, den);
      |r| > maxClasses && |r| >= 2 ==> MergeTooWasteful(r, CheapestMerge(r, |r| - 1), num, den)
    decreases |rs|
  {
    hide MergeTooWasteful, MergeCost, Merge;
    if |rs| > maxClasses && |rs| >= 2 {
      var i := CheapestMerge(rs, |rs| - 1);
      if !MergeTooWasteful(rs, i, num, den) {
        GreedyStops(Merge(rs, i), maxClasses, num, den);
      }
    }
  }

  /** The greedy merge keeps the ranges a partition of the tracked buckets. */
  lemma {:induction false} GreedyPartition(counts: seq<nat>, rs: seq<Range>, maxClasses: nat, num: nat, den: nat)
    requires Partition(counts, rs)
    ensures Partition(counts, Greedy(rs, maxClasses, num, den))
    decreases |rs|
  {
    if |rs| > maxClasses && |rs| >= 2 {
      var i := CheapestMerge(rs, |rs| - 1);
      if !MergeTooWasteful(rs, i, num, den) {
        MergePreservesPartition(counts, rs, i);
        GreedyPartition(counts, Merge(rs, i), maxClasses, num, den);
      }
    }
  }

  /**
   * The skip rule that optimal_layout's documentation describes: among the
   * adjacent pairs 0..n-1 whose merge is not too wasteful, the first with
   * the smallest MergeCost; None when every merge is too wasteful.
   */
  function CheapestFit(rs: seq<Range>, n: nat, num: nat, den: nat): (best: Option<nat>)
    requires n < |rs|
    ensures best.None? <==> forall j :: 0 <= j < n ==> MergeTooWasteful(rs, j, num, den)
    ensures best.Some? ==> best.value < n && !MergeTooWasteful(rs, best.value, num, den)
    ensures best.Some? ==> forall j :: 0 <= j < n && !MergeTooWasteful(rs, j, num, den) ==>
              MergeCost(rs, best.value) <= MergeCost(rs, j)
    ensures best.Some? ==> forall j :: 0 <= j < best.value && !MergeTooWasteful(rs, j, num, den) ==>
              MergeCost(rs, best.value) < MergeCost(rs, j)
  {
    if n == 0 then None
    else
      var b := CheapestFit(rs, n - 1, num, den);
      if MergeTooWasteful(rs, n - 1, num, den) then b
      else if b.None? || MergeCost(rs, n - 1) < MergeCost(rs, b.value) then Some(n - 1)
      else b
  }

  /** When the cheapest merge overall is within the limit, it is also the cheapest fitting one. */
  lemma CheapestFitAgrees(rs: seq<Range>, n: nat, num: nat, den: nat)
    requires 1 <= n < |rs| && !MergeTooWasteful(rs, CheapestMerge(rs, n), num, den)
    ensures CheapestFit(rs, n, num, den) == Some(CheapestMerge(rs, n))
  {
    var c := CheapestMerge(rs, n);
    var b := CheapestFit(rs, n, num, den);
    assert b.Some?;
    assert MergeCost(rs, b.value) == MergeCost(rs, c);
  }

  /**
   * The merge as optimal_layout's documentation states it: above maxClasses,
   * merge the cheapest pair whose merge is within the waste limit, skipping
   * the too-wasteful ones, and stop only when every merge is too wasteful.
   */
  function GreedySkip(rs: seq<Range>, maxClasses: nat, num: nat, den: nat): (r: seq<Range>)
    ensures |r| <= |rs|
    ensures |rs| <= maxClasses ==> r == rs
    decreases |rs|
  {
    if |rs| <= maxClasses || |rs| < 2 then rs
    else match CheapestFit(rs, |rs| - 1, num, den)
      case None => rs
      case Some(i) => GreedySkip(Merge(rs, i), maxClasses, num, den)
  }

  /**
   * Where the documented merge stops: never below maxClasses (nor one
   * range), and above maxClasses only when every adjacent merge is too
   * wasteful.
   */
  lemma {:induction false} GreedySkipStops(rs: seq<Range>, maxClasses: nat, num: nat, den: nat)
    ensures var r := GreedySkip(rs, maxClasses, num, den);
      r == rs || (maxClasses <= |r| && 1 <= |r|)
    ensures var r := GreedySkip(rs, maxClasses, num, den);
      |r| > maxClasses && |r| >= 2 ==> forall i :: 0 <= i < |r| - 1 ==> MergeTooWasteful(r, i, num, den)
    decreases |rs|
  {
    hide MergeTooWasteful, MergeCost, Merge;
    if |rs| > maxClasses && |rs| >= 2 {
      match CheapestFit(rs, |rs| - 1, num, den)
      case None =>
      case Some(i) => GreedySkipStops(Merge(rs, i), maxClasses, num, den);
    }
  }

  /** The documented merge keeps the ranges a partition of the tracked buckets. */
  lemma {:induction false} GreedySkipPartition(counts: seq<nat>, rs: seq<Range>, maxClasses: nat, num: nat, den: nat)
    requires Partition(counts, rs)
    ensures Partition(counts, GreedySkip(rs, maxClasses, num, den))
    decreases |rs|
  {
    if |rs| > maxClasses && |rs| >= 2 {
      match CheapestFit(rs, |rs| - 1, num, den)
      case None =>
      case Some(i) =>
        MergePreservesPartition(counts, rs, i);
        GreedySkipPartition(counts, Merge(rs, i), maxClasses, num, den);
    }
  }

  /**
   * The code and the documented rule agree whenever the code's loop does not
   * stop on a too-wasteful merge: then both merge the same pairs.
   */
  lemma {:induction false} GreedyAgrees(rs: seq<Range>, maxClasses: nat, num: nat, den: nat)
    requires |Greedy(rs, maxClasses, num, den)| <= maxClasses || |Greedy(rs, maxClasses, num, den)| < 2
    ensures GreedySkip(rs, maxClasses, num, den) == Greedy(rs, maxClasses, num, den)
    decreases |rs|
  {
    if |rs| > maxClasses && |rs| >= 2 {
      var i := CheapestMerge(rs, |rs| - 1);
      if !MergeTooWasteful(rs, i, num, den) {
        CheapestFitAgrees(rs, |rs| - 1, num, den);
        GreedyAgrees(Merge(rs, i), maxClasses, num, den);
      }
    }
  }

  /**
   * The code's loop as written stops on the first too-wasteful cheapest
   * merge. With one 8-byte allocation bucket of 10, one 64-byte allocation
   * and a thousand 4096-byte ones (the initial ranges below), max_classes 2
   * and a 12.5% limit, merging 8 into 64 is cheapest but too wasteful, so
   * three classes remain, although merging 64 into 4096 is within the limit
   * and the documented skip rule reaches two classes.
   */
  lemma GreedyBreaksEarly()
    ensures var rs := [Range(8, 10, 70), Range(64, 1, 7), Range(4096, 1000, 7000)];
      Greedy(rs, 2, 1, 8) == rs && |Greedy(rs, 2, 1, 8)| > 2
      && !MergeTooWasteful(rs, 1, 1, 8)
      && |GreedySkip(rs, 2, 1, 8)| == 2
  {
    var rs := [Range(8, 10, 70), Range(64, 1, 7), Range(4096, 1000, 7000)];
    assert MergeCost(rs, 0) == 560 && MergeCost(rs, 1) == 4032;
    assert CheapestMerge(rs, 2) == 0;
    assert MergeTooWasteful(rs, 0, 1, 8);
    assert CheapestFit(rs, 2, 1, 8) == Some(1);
    assert |Merge(rs, 1)| == 2;
  }

  /** The merge loop of optimal_layout. */
  method MergeRanges(counts: seq<nat>, ranges: seq<Range>, maxClasses: nat, wasteNum: nat, wasteDen: nat)
      returns (merged: seq<Range>)
    requires Partition(counts, ranges)
    ensures Partition(counts, merged) && |merged| <= |ranges|
    ensures |ranges| <= maxClasses ==> merged == ranges
    ensures |merged| > maxClasses && |merged| >= 2 ==>
      MergeTooWasteful(merged, CheapestMerge(merged, |merged| - 1), wasteNum, wasteDen)
    ensures merged == ranges || (maxClasses <= |merged| && 1 <= |merged|)
    ensures merged == Greedy(ranges, maxClasses, wasteNum, wasteDen)
  {
    hide Partition, RangeOk, MergeTooWasteful, MergeCost;
    merged := ranges;
    while true
      invariant Partition(counts, merged) && |merged| <= |ranges|
      invariant |ranges| <= maxClasses ==> merged == ranges
      invariant merged == ranges || (maxClasses <= |merged| && 1 <= |merged|)
      invariant Greedy(merged, maxClasses, wasteNum, wasteDen) == Greedy(ranges, maxClasses, wasteNum, wasteDen)
      decreases |merged|
    {
      if |merged| <= maxClasses {
        return;
      }
      if |merged| < 2 {
        // (0..len-1) is empty: min_by_key yields None
        return;
      }
      var i := CheapestMerge(merged, |merged| - 1);
      if MergeTooWasteful(merged, i, wasteNum, wasteDen) {
        return;
      }
      MergePreservesPartition(counts, merged, i);
      merged := Merge(merged, i);
    }
  }

  /** What a partition says about the layout built from it. */
  lemma PartitionLayout(counts: seq<nat>, ranges: seq<Range>, layout: ClassLayout)
    requires Partition(counts, ranges)
    requires layout == ClassLayout(ClassesOf(ranges), SumCounts(ranges), SumWaste(ranges), SumBytes(ranges))
    ensures |layout.classes| == |ranges|
    ensures ValidClasses(counts, layout.classes)
    ensures forall b :: layout.classes[|layout.classes| - 1] / BUCKET_SIZE <= b < NUM_BUCKETS ==> counts[b] == 0
    ensures layout.totalCount == Total(counts)
    ensures RangesOf(counts, layout.classes) == ranges
    ensures layout.totalWaste == SumWaste(RangesOf(counts, layout.classes))
    ensures layout.totalAllocBytes == SumBytes(RangesOf(counts, layout.classes))
  {
    PartitionTotal(counts, ranges);
    PartitionIsRangesOf(counts, ranges);
    assert layout.classes[|ranges| - 1] == ranges[|ranges| - 1].classSize;
  }

  // ---------------------------------------------------------------------
  // to_toml

  function DigitChar(d: nat): char
    requires d < 10
  {
    ['0', '1', '2', '3', '4', '5', '6', '7', '8', '9'][d]
  }

  /** Decimal rendering of n (format!("{}", n)). */
  function Decimal(n: nat): (s: string)
    ensures |s| >= 1
    ensures forall k :: 0 <= k < |s| ==> '0' <= s[k] <= '9'
    decreases n
  {
    if n < 10 then [DigitChar(n)] else Decimal(n / 10) + [DigitChar(n % 10)]
  }

  /** The sizes, rendered in decimal and joined with ", ". */
  function JoinDecimal(cs: seq<nat>): string
  {
    if |cs| == 0 then ""
    else if |cs| == 1 then Decimal(cs[0])
    else Decimal(cs[0]) + ", " + JoinDecimal(cs[1..])
  }

  /** ClassLayout::to_toml: the simple `classes = [...]` form the build script reads. */
  function ToToml(classes: seq<nat>): (s: string)
    ensures |s| >= 13 && s[..11] == "classes = [" && s[|s| - 2..] == "]\n"
  {
    "classes = [" + JoinDecimal(classes) + "]\n"
  }

  // Reading the text back, as the build script's `classes = [...]` list.

  function DigitValue(c: char): nat
    requires '0' <= c <= '9'
  {
    (c as int - '0' as int) as nat
  }

  /** The value of a string of decimal digits. */
  function ParseDecimal(s: string): nat
    requires forall k :: 0 <= k < |s| ==> '0' <= s[k] <= '9'
  {
    if |s| == 0 then 0 else ParseDecimal(s[..|s| - 1]) * 10 + DigitValue(s[|s| - 1])
  }

  /** Length of the run of digits at the start of s. */
  function DigitRun(s: string): (n: nat)
    ensures n <= |s|
    ensures forall k :: 0 <= k < n ==> '0' <= s[k] <= '9'
  {
    if |s| > 0 && '0' <= s[0] <= '9' then 1 + DigitRun(s[1..]) else 0
  }

  /** Numbers separated by ", ", as in an inline TOML array of integers. */
  function ParseNumberList(s: string): seq<nat>
    decreases |s|
  {
    var n := DigitRun(s);
    if n == 0 then []
    else if n + 2 <= |s| && s[n..n + 2] == ", " then [ParseDecimal(s[..n])] + ParseNumberList(s[n + 2..])
    else [ParseDecimal(s[..n])]
  }

  /** The classes listed by a `classes = [...]` line, if s is one. */
  function ParseToml(s: string): seq<nat>
  {
    if |s| >= 13 && s[..11] == "classes = [" && s[|s| - 2..] == "]\n" then ParseNumberList(s[11..|s| - 2])
    else []
  }

  lemma {:induction false} DecimalRoundTrip(n: nat)
    ensures ParseDecimal(Decimal(n)) == n
    decreases n
  {
    if n >= 10 {
      DecimalRoundTrip(n / 10);
      assert Decimal(n)[..|Decimal(n)| - 1] == Decimal(n / 10);
    }
  }

  lemma {:induction false} DigitRunOfDecimal(d: string, rest: string)
    requires forall k :: 0 <= k < |d| ==> '0' <= d[k] <= '9'
    requires |rest| == 0 || !('0' <= rest[0] <= '9')
    ensures DigitRun(d + rest) == |d|
    decreases |d|
  {
    if |d| > 0 {
      assert (d + rest)[1..] == d[1..] + rest;
      DigitRunOfDecimal(d[1..], rest);
    }
  }

  lemma {:induction false} JoinRoundTrip(cs: seq<nat>)
    ensures ParseNumberList(JoinDecimal(cs)) == cs
    decreases |cs|
  {
    hide Decimal, ParseDecimal, DigitRun;
    if |cs| == 0 {
    } else if |cs| == 1 {
      var d := Decimal(cs[0]);
      DigitRunOfDecimal(d, "");
      assert d + "" == d;
      DecimalRoundTrip(cs[0]);
      assert d[..|d|] == d;
    } else {
      var d := Decimal(cs[0]);
      var rest := JoinDecimal(cs[1..]);
      var s := d + ", " + rest;
      assert s == d + (", " + rest);
      DigitRunOfDecimal(d, ", " + rest);
      assert s[..|d|] == d;
      assert s[|d|..|d| + 2] == ", ";
      assert s[|d| + 2..] == rest;
      DecimalRoundTrip(cs[0]);
      JoinRoundTrip(cs[1..]);
      assert [cs[0]] + cs[1..] == cs;
    }
  }

  /** Round trip: the exported TOML line lists exactly the layout's classes. */
  lemma ToTomlRoundTrip(classes: seq<nat>)
    ensures ParseToml(ToToml(classes)) == classes
  {
    var s := ToToml(classes);
    assert s[11..|s| - 2] == JoinDecimal(classes);
    JoinRoundTrip(classes);
  }
}
