/**
 * The per-CPU slab of the rseq crate. One region of 2^shift bytes per CPU
 * holds, for each size class, a header (current, end) followed, after the
 * headers rounded up to 8 bytes, by the slot array of each class in class
 * order. Slots [begin, current) of a (cpu, class) pair form a bounded LIFO
 * stack of pointers; begin offsets are shared by all CPUs.
 *
 * Offsets are in pointer-sized words. Headers and slots are kept in separate
 * arrays (`current`, `end` indexed by cpu and class, `slots` by cpu and word);
 * the layout lemmas show the slot ranges lie after the header words and do not
 * overlap. Pointers are abstract object ids. Only the committed sequential
 * effect of push and pop is modelled: the CPU is a parameter, not read from the
 * rseq area, and an aborted critical section is not.
 */
module PerCpu {
  import opened Wrappers

  function Pow2(k: nat): (p: nat)
    ensures p >= 1
  {
    if k == 0 then 1 else 2 * Pow2(k - 1)
  }

  function Min(a: nat, b: nat): nat { if a <= b then a else b }

  // ---------------------------------------------------------------------
  // Layout

  /** x & !7 on a non-negative x: x rounded down to a multiple of 8. */
  function AlignDown8(x: nat): nat { x - x % 8 }

  /**
   * The first slot word: the NUM_CLASSES 4-byte headers, rounded up to
   * 8 bytes, in words.
   */
  function DataStart(numClasses: nat): (w: nat)
    ensures w * 8 >= numClasses * 4 && w * 8 < numClasses * 4 + 8
  {
    AlignDown8(numClasses * 4 + 7) / 8
  }

  /** caps[lo] + ... + caps[hi - 1]. */
  function SumCaps(caps: seq<nat>, lo: nat, hi: nat): nat
    requires lo <= hi <= |caps|
    decreases hi - lo
  {
    if lo == hi then 0 else SumCaps(caps, lo, hi - 1) + caps[hi - 1]
  }

  /** The begin offset of class c: 0 for the unused class 0, otherwise after the headers and the slots of classes 1..c-1. */
  function BeginOf(caps: seq<nat>, c: nat): nat
    requires c < |caps|
  {
    if c == 0 then 0 else DataStart(|caps|) + SumCaps(caps, 1, c)
  }

  /** Words per CPU the layout needs: the offset after the last class's slots. */
  function LayoutWords(caps: seq<nat>): nat
    requires |caps| >= 1
  {
    DataStart(|caps|) + SumCaps(caps, 1, |caps|)
  }

  lemma {:induction false} SumCapsSplit(caps: seq<nat>, lo: nat, mid: nat, hi: nat)
    requires lo <= mid <= hi <= |caps|
    ensures SumCaps(caps, lo, hi) == SumCaps(caps, lo, mid) + SumCaps(caps, mid, hi)
    decreases hi - mid
  {
    if mid < hi {
      SumCapsSplit(caps, lo, mid, hi - 1);
    }
  }

  /**
   * The slot range of every class 1..NUM_CLASSES-1 lies after the header
   * words and inside the layout, and the range of a lower class ends where
   * the next one may begin: no two classes share a slot.
   */
  lemma Layout(caps: seq<nat>, c: nat, d: nat)
    requires 1 <= c < |caps| && 1 <= d < |caps|
    ensures DataStart(|caps|) <= BeginOf(caps, c)
    ensures BeginOf(caps, c) + caps[c] <= LayoutWords(caps)
    ensures c < d ==> BeginOf(caps, c) + caps[c] <= BeginOf(caps, d)
  {
    SumCapsSplit(caps, 1, c, |caps|);
    SumCapsSplit(caps, c, c + 1, |caps|);
    if c < d {
      SumCapsSplit(caps, 1, c + 1, d);
      SumCapsSplit(caps, 1, c, c + 1);
    }
  }

  /**
   * With the slab's shift of 18 (256 KiB per CPU), a layout that fits keeps
   * every begin and end offset below 2^16, so the source's u16 headers and
   * begin offsets never truncate.
   */
  lemma FitsInU16(caps: seq<nat>, shift: nat, c: nat)
    requires |caps| >= 1 && shift <= 18 && LayoutWords(caps) * 8 <= Pow2(shift)
    requires 1 <= c < |caps|
    ensures BeginOf(caps, c) < 65536 && BeginOf(caps, c) + caps[c] < 65536
  {
    Layout(caps, c, c);
    Pow2Mono(shift, 18);
    Pow2Of18();
  }

  lemma Pow2Of18()
    ensures Pow2(18) == 262144
  {
    assert Pow2(0) == 1;
    assert Pow2(2) == 4;
    assert Pow2(4) == 16;
    assert Pow2(6) == 64;
    assert Pow2(8) == 256;
    assert Pow2(10) == 1024;
    assert Pow2(12) == 4096;
    assert Pow2(14) == 16384;
    assert Pow2(16) == 65536;
  }

  lemma {:induction false} Pow2Mono(a: nat, b: nat)
    requires a <= b
    ensures Pow2(a) <= Pow2(b)
    decreases b
  {
    if a < b {
      Pow2Mono(a, b - 1);
    }
  }

  // ---------------------------------------------------------------------
  // One (cpu, class) stack, as a value

  /** pop: None on an empty stack, which stays as it is; otherwise the top pointer comes off. */
  function PopOn(s: seq<nat>): (seq<nat>, Option<nat>)
  {
    if s == [] then (s, None) else (s[..|s| - 1], Some(s[|s| - 1]))
  }

  /** push: refused on a stack holding cap pointers, which stays as it is; otherwise the pointer goes on top. */
  function PushOn(s: seq<nat>, cap: nat, p: nat): (seq<nat>, bool)
  {
    if |s| >= cap then (s, false) else (s + [p], true)
  }

  function Reverse(s: seq<nat>): (r: seq<nat>)
    ensures |r| == |s|
    ensures forall i :: 0 <= i < |s| ==> r[i] == s[|s| - 1 - i]
  {
    if s == [] then [] else [s[|s| - 1]] + Reverse(s[..|s| - 1])
  }

  /** pop_batch: min(count, length) pointers come off, the top one first. */
  function PopBatchOn(s: seq<nat>, count: nat): (seq<nat>, seq<nat>)
  {
    var n := Min(count, |s|);
    (s[..|s| - n], Reverse(s[|s| - n..]))
  }

  /** push_batch: the first min(count, room) pointers go on, in order; the number pushed is returned. */
  function PushBatchOn(s: seq<nat>, cap: nat, ptrs: seq<nat>, count: nat): (seq<nat>, nat)
    requires count <= |ptrs|
  {
    var n := Min(count, if |s| <= cap then cap - |s| else 0);
    (s + ptrs[..n], n)
  }

  /** count single pops in a row: the stack left and the pointers in the order they came off. */
  function Pops(s: seq<nat>, count: nat): (seq<nat>, seq<nat>)
    decreases count
  {
    if count == 0 then (s, [])
    else
      var (t, r) := PopOn(s);
      if r == None then (t, [])
      else
        var (u, rest) := Pops(t, count - 1);
        (u, [r.value] + rest)
  }

  /** Single pushes of ptrs in order, stopping at the first refused one: the stack and how many went on. */
  function Pushes(s: seq<nat>, cap: nat, ptrs: seq<nat>): (seq<nat>, nat)
    decreases |ptrs|
  {
    if ptrs == [] then (s, 0)
    else
      var (t, ok) := PushOn(s, cap, ptrs[0]);
      if !ok then (s, 0)
      else
        var (u, n) := Pushes(t, cap, ptrs[1..]);
        (u, n + 1)
  }

  /** LIFO: a successful push is undone by the next pop, which gives back the pointer pushed. */
  lemma PopAfterPush(s: seq<nat>, cap: nat, p: nat)
    requires PushOn(s, cap, p).1
    ensures PopOn(PushOn(s, cap, p).0) == (s, Some(p))
  {
    assert (s + [p])[..|s|] == s;
  }

  /** pop_batch moves what count single pops would, in the same order. */
  lemma {:induction false} PopBatchIsPops(s: seq<nat>, count: nat)
    ensures PopBatchOn(s, count) == Pops(s, count)
    decreases count
  {
    if count > 0 && s != [] {
      var t := s[..|s| - 1];
      PopBatchIsPops(t, count - 1);
      var n := Min(count, |s|);
      assert t[..|t| - (n - 1)] == s[..|s| - n];
      var top := s[|s| - n..];
      assert top == t[|t| - (n - 1)..] + [s[|s| - 1]];
      assert Reverse(top) == [s[|s| - 1]] + Reverse(t[|t| - (n - 1)..]) by {
        assert top[..|top| - 1] == t[|t| - (n - 1)..];
      }
      assert PopOn(s) == (t, Some(s[|s| - 1]));
      assert Pops(s, count) == (Pops(t, count - 1).0, [s[|s| - 1]] + Pops(t, count - 1).1);
    } else if count > 0 {
      assert PopOn(s) == (s, None);
      assert s[..|s|] == [] && s[|s|..] == [];
      assert Pops(s, count) == ([], []);
      assert PopBatchOn(s, count) == ([], []);
    } else {
      assert s[..|s|] == s && s[|s|..] == [];
    }
  }

  /** push_batch moves what single pushes of the first count pointers would, in the same order. */
  lemma {:induction false} PushBatchIsPushes(s: seq<nat>, cap: nat, ptrs: seq<nat>, count: nat)
    requires count <= |ptrs|
    ensures PushBatchOn(s, cap, ptrs, count) == Pushes(s, cap, ptrs[..count])
    decreases count
  {
    var n := Min(count, if |s| <= cap then cap - |s| else 0);
    if count > 0 && |s| < cap {
      var p := ptrs[0];
      PushBatchIsPushes(s + [p], cap, ptrs[1..], count - 1);
      assert ptrs[..count][1..] == ptrs[1..][..count - 1];
      assert (s + [p]) + ptrs[1..][..n - 1] == s + ptrs[..n];
    } else {
      assert ptrs[..n] == [];
      assert s + ptrs[..n] == s;
    }
  }

  /** Pushing a batch that fits and popping as many gives the batch back reversed and the stack as it was. */
  lemma BatchRoundTrip(s: seq<nat>, cap: nat, ptrs: seq<nat>, count: nat)
    requires count <= |ptrs| && |s| + count <= cap
    ensures PushBatchOn(s, cap, ptrs, count) == (s + ptrs[..count], count)
    ensures PopBatchOn(s + ptrs[..count], count) == (s, Reverse(ptrs[..count]))
  {
    var t := s + ptrs[..count];
    assert t[..|t| - count] == s;
    assert t[|t| - count..] == ptrs[..count];
  }

  // ---------------------------------------------------------------------
  // The slab

  /**
   * init's header loop: for every CPU and class, current = begin and
   * end = begin + capacity.
   */
  method EmptyHeaders(cpus: nat, begins: seq<nat>, capacities: seq<nat>) returns (cur: array2<nat>, ends: array2<nat>)
    requires |begins| == |capacities|
    ensures fresh(cur) && fresh(ends) && cur != ends
    ensures cur.Length0 == cpus && cur.Length1 == |begins| && ends.Length0 == cpus && ends.Length1 == |begins|
    ensures forall p, d :: 0 <= p < cpus && 0 <= d < |begins| ==>
      cur[p, d] == begins[d] && ends[p, d] == begins[d] + capacities[d]
  {
    cur := new nat[cpus, |begins|];
    ends := new nat[cpus, |begins|];
    var cpu := 0;
    while cpu < cpus
      modifies cur, ends
      invariant 0 <= cpu <= cpus
      invariant forall p, d :: 0 <= p < cpu && 0 <= d < |begins| ==>
        cur[p, d] == begins[d] && ends[p, d] == begins[d] + capacities[d]
    {
      var k := 0;
      while k < |begins|
        modifies cur, ends
        invariant 0 <= k <= |begins|
        invariant forall p, d :: 0 <= p < cpu && 0 <= d < |begins| ==>
          cur[p, d] == begins[d] && ends[p, d] == begins[d] + capacities[d]
        invariant forall d :: 0 <= d < k ==> cur[cpu, d] == begins[d] && ends[cpu, d] == begins[d] + capacities[d]
      {
        cur[cpu, k] := begins[k];
        ends[cpu, k] := begins[k] + capacities[k];
        k := k + 1;
      }
      cpu := cpu + 1;
    }
  }

  class PerCpuSlab {
    /** NUM_CLASSES, the size classes including the unused class 0. */
    const numClasses: nat
    /** Begin offset of each class, shared by all CPUs. */
    const begins: array<nat>
    /** Whether init has succeeded (the region pointer is non-null). */
    var initialized: bool
    var shift: nat
    var numCpus: nat
    /** The `current` header of each (cpu, class). */
    var current: array2<nat>
    /** The `end` header of each (cpu, class). */
    var end: array2<nat>
    /** The slot words of each CPU's region. */
    var slots: array2<nat>
    /** The capacities init was given. */
    ghost var caps: seq<nat>

    ghost predicate Valid()
      reads this, begins, current, end
    {
      && numClasses >= 1 && begins.Length == numClasses
      && (initialized ==> Laid())
    }

    /**
     * An initialised slab: begins follow the layout of caps, the layout fits
     * in a CPU region, and every header has end == begin + capacity with
     * current between the two (class 0 stays empty).
     */
    ghost predicate Laid()
      reads this, begins, current, end
      requires numClasses >= 1 && begins.Length == numClasses
    {
      && |caps| == numClasses
      && current != end && current != slots && end != slots
      && current.Length0 == numCpus && current.Length1 == numClasses
      && end.Length0 == numCpus && end.Length1 == numClasses
      && slots.Length0 == numCpus && slots.Length1 == Pow2(shift) / 8
      && LayoutWords(caps) * 8 <= Pow2(shift)
      && (forall c :: 0 <= c < numClasses ==> begins[c] == BeginOf(caps, c))
      && (forall cpu, c :: 0 <= cpu < numCpus && 0 <= c < numClasses ==>
            end[cpu, c] == begins[c] + caps[c] && begins[c] <= current[cpu, c] <= end[cpu, c])
      && (forall cpu :: 0 <= cpu < numCpus ==> current[cpu, 0] == 0)
    }

    /** The words [begin, end) of class c lie inside a CPU region. */
    lemma InRegion(c: nat)
      requires Valid() && initialized && c < numClasses
      ensures c >= 1 ==> begins[c] + caps[c] <= slots.Length1
    {
      if c >= 1 {
        Layout(caps, c, c);
      }
    }

    /** The pointers cached for class c on cpu, bottom first. */
    ghost function Stack(cpu: nat, c: nat): seq<nat>
      reads this, begins, current, end, slots
      requires Valid() && initialized && cpu < numCpus && c < numClasses
    {
      InRegion(c);
      var b, n := begins[c], current[cpu, c] - begins[c];
      seq(n, i requires 0 <= i < n && cpu < slots.Length0 && b + i < slots.Length1 reads this, slots => slots[cpu, b + i])
    }

    /** empty: an uninitialised slab with all begins zero. */
    constructor (numClasses: nat)
      requires numClasses >= 1
      ensures Valid() && !initialized && this.numClasses == numClasses
      ensures begins[..] == seq(numClasses, _ => 0)
    {
      this.numClasses := numClasses;
      begins := new nat[numClasses](_ => 0);
      initialized := false;
      shift, numCpus := 0, 0;
      current := new nat[0, 0];
      end := new nat[0, 0];
      slots := new nat[0, 0];
      caps := [];
    }

    /** length: the number of pointers cached for class c on cpu. */
    function Length(cpu: nat, c: nat): (n: nat)
      reads this, begins, current, end, slots
      requires Valid() && initialized && cpu < numCpus && c < numClasses
      ensures n == |Stack(cpu, c)|
    {
      current[cpu, c] - begins[c]
    }

    /** capacity: the capacity init gave class c. */
    function Capacity(cpu: nat, c: nat): (n: nat)
      reads this, begins, current, end
      requires Valid() && initialized && cpu < numCpus && c < numClasses
      ensures n == caps[c]
    {
      end[cpu, c] - begins[c]
    }

    /**
     * init: lays out the begin offsets, then fails (leaving the slab
     * uninitialised) if the layout needs more than 2^shift bytes per CPU;
     * otherwise every header of every CPU is set to an empty stack of the
     * class's capacity. The begin offsets are written before the check.
     */
    method Init(cpus: nat, shiftBits: nat, capacities: seq<nat>) returns (ok: bool)
      requires Valid() && !initialized && |capacities| == numClasses
      modifies this, begins
      ensures Valid()
      ensures forall c :: 0 <= c < numClasses ==> begins[c] == BeginOf(capacities, c)
      ensures ok <==> LayoutWords(capacities) * 8 <= Pow2(shiftBits)
      ensures !ok ==> !initialized
      ensures ok ==> initialized && numCpus == cpus && shift == shiftBits && caps == capacities
      ensures ok ==> forall cpu, c :: 0 <= cpu < cpus && 0 <= c < numClasses ==>
        Stack(cpu, c) == [] && Capacity(cpu, c) == capacities[c]
    {
      var offset := LayBegins(capacities);
      if offset * 8 > Pow2(shiftBits) {
        return false;
      }
      var cur, ends := EmptyHeaders(cpus, begins[..], capacities);
      Install(cur, ends, cpus, shiftBits, capacities);
      Emptied();
      ok := true;
    }

    /** init's first loop: the begin offset of every class, and the offset after the last one. */
    method LayBegins(capacities: seq<nat>) returns (offset: nat)
      requires numClasses >= 1 && begins.Length == numClasses && |capacities| == numClasses
      modifies begins
      ensures offset == LayoutWords(capacities)
      ensures forall c :: 0 <= c < numClasses ==> begins[c] == BeginOf(capacities, c)
    {
      offset := DataStart(numClasses);
      begins[0] := 0;
      var c := 1;
      while c < numClasses
        invariant 1 <= c <= numClasses
        invariant offset == DataStart(numClasses) + SumCaps(capacities, 1, c)
        invariant forall d :: 0 <= d < c ==> begins[d] == BeginOf(capacities, d)
      {
        begins[c] := offset;
        offset := offset + capacities[c];
        c := c + 1;
      }
    }

    /** The end of a successful init: the headers, a fresh region and the geometry are installed. */
    method Install(cur: array2<nat>, ends: array2<nat>, cpus: nat, shiftBits: nat, capacities: seq<nat>)
      requires numClasses >= 1 && begins.Length == numClasses && |capacities| == numClasses
      requires cur != ends && LayoutWords(capacities) * 8 <= Pow2(shiftBits)
      requires forall c :: 0 <= c < numClasses ==> begins[c] == BeginOf(capacities, c)
      requires cur.Length0 == cpus && cur.Length1 == numClasses && ends.Length0 == cpus && ends.Length1 == numClasses
      requires forall p, d :: 0 <= p < cpus && 0 <= d < numClasses ==>
        cur[p, d] == begins[d] && ends[p, d] == begins[d] + capacities[d]
      modifies this
      ensures Valid() && initialized && numCpus == cpus && shift == shiftBits && caps == capacities
      ensures current == cur && end == ends
    {
      current, end := cur, ends;
      slots := new nat[cpus, Pow2(shiftBits) / 8];
      shift, numCpus, caps := shiftBits, cpus, capacities;
      initialized := true;
    }

    /** Every stack of a freshly initialised slab is empty and has its class's capacity. */
    lemma Emptied()
      requires Valid() && initialized
      requires forall p, d :: 0 <= p < numCpus && 0 <= d < numClasses ==> current[p, d] == begins[d]
      ensures forall p, d :: 0 <= p < numCpus && 0 <= d < numClasses ==> Stack(p, d) == [] && Capacity(p, d) == caps[d]
    {
    }

    /**
     * pop on cpu: None when class c is empty there (current == begin);
     * otherwise the pointer in slot current-1, and current drops by one.
     * No other stack changes.
     */
    method Pop(cpu: nat, c: nat) returns (r: Option<nat>)
      requires Valid() && initialized && cpu < numCpus && 1 <= c < numClasses
      modifies current
      ensures Valid()
      ensures (Stack(cpu, c), r) == PopOn(old(Stack(cpu, c)))
      ensures forall p, d :: 0 <= p < numCpus && 0 <= d < numClasses && (p, d) != (cpu, c) ==>
        Stack(p, d) == old(Stack(p, d))
    {
      InRegion(c);
      var cur := current[cpu, c];
      if cur == begins[c] {
        return None;
      }
      cur := cur - 1;
      r := Some(slots[cpu, cur]);
      current[cpu, c] := cur;
      ghost var s := old(Stack(cpu, c));
      assert |Stack(cpu, c)| == |s| - 1;
      forall i | 0 <= i < |s| - 1
        ensures Stack(cpu, c)[i] == s[i]
      {
      }
      assert Stack(cpu, c) == s[..|s| - 1];
      forall q, d | 0 <= q < numCpus && 0 <= d < numClasses && (q, d) != (cpu, c)
        ensures Stack(q, d) == old(Stack(q, d))
      {
        assert current[q, d] == old(current[q, d]);
        forall i | 0 <= i < |Stack(q, d)|
          ensures Stack(q, d)[i] == old(Stack(q, d))[i]
        {
        }
      }
    }

    /**
     * push on cpu: refused when class c is full there (current == end);
     * otherwise p goes into slot current, and current rises by one.
     * No other stack changes.
     */
    method Push(cpu: nat, c: nat, p: nat) returns (ok: bool)
      requires Valid() && initialized && cpu < numCpus && 1 <= c < numClasses
      modifies current, slots
      ensures Valid()
      ensures (Stack(cpu, c), ok) == PushOn(old(Stack(cpu, c)), caps[c], p)
      ensures forall q, d :: 0 <= q < numCpus && 0 <= d < numClasses && (q, d) != (cpu, c) ==>
        Stack(q, d) == old(Stack(q, d))
    {
      InRegion(c);
      var cur := current[cpu, c];
      if cur == end[cpu, c] {
        return false;
      }
      slots[cpu, cur] := p;
      current[cpu, c] := cur + 1;
      ok := true;
      assert Stack(cpu, c) == old(Stack(cpu, c)) + [p];
      forall q, d | 0 <= q < numCpus && 0 <= d < numClasses && (q, d) != (cpu, c)
        ensures Stack(q, d) == old(Stack(q, d))
      {
        if q == cpu && d >= 1 {
          if d < c { Layout(caps, d, c); } else { Layout(caps, c, d); }
        }
      }
    }

    /**
     * pop_batch on cpu: min(count, length) pointers come off class c, the
     * top one first, as that many single pops would give them. No other
     * stack changes.
     */
    method PopBatch(cpu: nat, c: nat, count: nat) returns (out: seq<nat>)
      requires Valid() && initialized && cpu < numCpus && 1 <= c < numClasses
      modifies current
      ensures Valid()
      ensures (Stack(cpu, c), out) == PopBatchOn(old(Stack(cpu, c)), count)
      ensures forall q, d :: 0 <= q < numCpus && 0 <= d < numClasses && (q, d) != (cpu, c) ==>
        Stack(q, d) == old(Stack(q, d))
    {
      InRegion(c);
      ghost var s := Stack(cpu, c);
      var n := Min(count, current[cpu, c] - begins[c]);
      out := Lower(cpu, c, n);
      assert out == Reverse(s[|s| - n..]);
      assert |Stack(cpu, c)| == |s| - n;
      forall k | 0 <= k < |s| - n
        ensures Stack(cpu, c)[k] == s[k]
      {
      }
      assert Stack(cpu, c) == s[..|s| - n];
      forall q, d | 0 <= q < numCpus && 0 <= d < numClasses && (q, d) != (cpu, c)
        ensures Stack(q, d) == old(Stack(q, d))
      {
        forall k | 0 <= k < |Stack(q, d)|
          ensures Stack(q, d)[k] == old(Stack(q, d))[k]
        {
        }
      }
    }

    /** pop_batch's copy loop: n pointers come off class c, the top one first. */
    method Lower(cpu: nat, c: nat, n: nat) returns (out: seq<nat>)
      requires Valid() && initialized && cpu < numCpus && 1 <= c < numClasses
      requires begins[c] + n <= current[cpu, c] <= slots.Length1
      modifies current
      ensures Valid()
      ensures current[cpu, c] == old(current[cpu, c]) - n
      ensures |out| == n && forall k :: 0 <= k < n ==> out[k] == slots[cpu, old(current[cpu, c]) - 1 - k]
      ensures forall q, d :: 0 <= q < numCpus && 0 <= d < numClasses && (q, d) != (cpu, c) ==>
        current[q, d] == old(current[q, d])
    {
      InRegion(c);
      out := [];
      var i := 0;
      while i < n
        invariant 0 <= i <= n && Valid()
        invariant current[cpu, c] == old(current[cpu, c]) - i
        invariant |out| == i && forall k :: 0 <= k < i ==> out[k] == slots[cpu, old(current[cpu, c]) - 1 - k]
        invariant forall q, d :: 0 <= q < numCpus && 0 <= d < numClasses && (q, d) != (cpu, c) ==>
          current[q, d] == old(current[q, d])
      {
        var cur := current[cpu, c] - 1;
        current[cpu, c] := cur;
        out := out + [slots[cpu, cur]];
        i := i + 1;
      }
    }

    /** push_batch's copy loop: n pointers of ptrs go on class c, which has room for them. */
    method Append(cpu: nat, c: nat, ptrs: seq<nat>, n: nat)
      requires Valid() && initialized && cpu < numCpus && 1 <= c < numClasses
      requires n <= |ptrs| && current[cpu, c] + n <= end[cpu, c]
      modifies current, slots
      ensures Valid()
      ensures Stack(cpu, c) == old(Stack(cpu, c)) + ptrs[..n]
      ensures forall q, w :: 0 <= q < slots.Length0 && 0 <= w < slots.Length1 && (q != cpu || w < old(current[cpu, c]) || old(current[cpu, c]) + n <= w) ==>
        slots[q, w] == old(slots[q, w])
      ensures forall q, d :: 0 <= q < numCpus && 0 <= d < numClasses && (q, d) != (cpu, c) ==>
        current[q, d] == old(current[q, d])
    {
      InRegion(c);
      ghost var s := Stack(cpu, c);
      var b := begins[c];
      var i := 0;
      while i < n
        invariant 0 <= i <= n && Valid()
        invariant current[cpu, c] == b + |s| + i
        invariant forall k :: 0 <= k < |s| + i ==> slots[cpu, b + k] == (s + ptrs[..i])[k]
        invariant forall q, w :: 0 <= q < slots.Length0 && 0 <= w < slots.Length1 && (q != cpu || w < b + |s| || b + |s| + i <= w) ==>
          slots[q, w] == old(slots[q, w])
        invariant forall q, d :: 0 <= q < numCpus && 0 <= d < numClasses && (q, d) != (cpu, c) ==>
          current[q, d] == old(current[q, d])
      {
        var cur := current[cpu, c];
        slots[cpu, cur] := ptrs[i];
        current[cpu, c] := cur + 1;
        assert (s + ptrs[..i + 1]) == (s + ptrs[..i]) + [ptrs[i]];
        i := i + 1;
      }
      assert |Stack(cpu, c)| == |s + ptrs[..n]|;
      assert Stack(cpu, c) == s + ptrs[..n];
    }

    /**
     * push_batch on cpu: the first min(count, room) pointers of ptrs go on
     * class c in order, as single pushes would put them; the number pushed
     * is returned. No other stack changes.
     */
    method PushBatch(cpu: nat, c: nat, ptrs: seq<nat>, count: nat) returns (n: nat)
      requires Valid() && initialized && cpu < numCpus && 1 <= c < numClasses && count <= |ptrs|
      modifies current, slots
      ensures Valid()
      ensures (Stack(cpu, c), n) == PushBatchOn(old(Stack(cpu, c)), caps[c], ptrs, count)
      ensures forall q, d :: 0 <= q < numCpus && 0 <= d < numClasses && (q, d) != (cpu, c) ==>
        Stack(q, d) == old(Stack(q, d))
    {
      InRegion(c);
      ghost var s := Stack(cpu, c);
      var b := begins[c];
      n := Min(count, end[cpu, c] - current[cpu, c]);
      Append(cpu, c, ptrs, n);
      forall q, d | 0 <= q < numCpus && 0 <= d < numClasses && (q, d) != (cpu, c)
        ensures Stack(q, d) == old(Stack(q, d))
      {
        if q == cpu && d >= 1 {
          if d < c { Layout(caps, d, c); } else { Layout(caps, c, d); }
        }
        assert current[q, d] == old(current[q, d]);
        assert |s| + n <= caps[c];
        InRegion(d);
        forall k | 0 <= k < |Stack(q, d)|
          ensures Stack(q, d)[k] == old(Stack(q, d))[k]
        {
          assert begins[d] + k < current[q, d];
          assert q != cpu || begins[d] + k < b + |s| || b + |s| + n <= begins[d] + k;
          assert Stack(q, d)[k] == slots[q, begins[d] + k];
          assert old(Stack(q, d))[k] == old(slots[q, begins[d] + k]);
        }
      }
    }
  }
}
