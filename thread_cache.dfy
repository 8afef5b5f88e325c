/**
 * The thread cache: the allocator's front end. Each thread keeps, per size
 * class, a free list it pops from and pushes to without any lock; when a
 * list runs dry it fetches a batch from the transfer cache or the central
 * free list, when it grows past its bound it releases a batch back, and
 * when the whole cache outgrows its byte budget it scavenges the objects
 * that sat unused since the last scavenge. The bound of each list adapts:
 * slow start on fetch, shrinking after repeated overflows.
 *
 * An intrusive chain of free objects is modelled as the sequence of the
 * objects, head first; the shared pool of unclaimed budget, an atomic in
 * the source, is a Budget object passed to the operations that touch it.
 */
module ThreadCaches {
  import opened Config
  import opened Wrappers
  import opened SizeClass
  import opened Spans
  import opened PageHeaps
  import opened CentralViews
  import opened CentralFreeLists
  import opened TransferCaches
  import HeapViews
  import PageMaps

  function Max(a: nat, b: nat): nat
  {
    if a >= b then a else b
  }

  // ---------------------------------------------------------------------
  // The max_length policy

  /**
   * grow_max_length_on_fetch: below the batch size the bound grows by one
   * (slow start); from there on it grows by a batch, rounded down to a
   * multiple of the batch size and capped at MAX_DYNAMIC_FREE_LIST_LENGTH.
   */
  function FetchGrowth(m: nat, batch: nat): nat
    requires batch > 0
  {
    if m < batch then m + 1
    else Min((m + batch) - (m + batch) % batch, MAX_DYNAMIC_FREE_LIST_LENGTH)
  }

  /** A list bound together with its count of consecutive overflows. */
  datatype Bound = Bound(maxLength: nat, overages: nat)

  /**
   * The bound adjustment after release_to_central: below the batch size the
   * bound grows by one; above it every release is an overage, and the
   * overage after MAX_OVERAGES of them shrinks the bound by a batch (never
   * below one batch) and starts the count again; at the batch size nothing
   * changes.
   */
  function ReleaseAdjust(b: Bound, batch: nat): Bound
  {
    if b.maxLength < batch then Bound(b.maxLength + 1, b.overages)
    else if b.maxLength > batch then
      if b.overages + 1 > MAX_OVERAGES then Bound(Max(b.maxLength - batch, batch), 0)
      else Bound(b.maxLength, b.overages + 1)
    else b
  }

  /** The bound after a scavenge: one batch less when above the batch size, but never below it. */
  function ScavengeShrink(m: nat, batch: nat): nat
  {
    if m > batch then Max(m - batch, batch) else m
  }

  /** The objects a scavenge asks a list to give up: half its low-water mark, and one when that mark is one. */
  function ScavengeAmount(lwm: nat): nat
  {
    if lwm > 1 then lwm / 2 else 1
  }

  /** The objects a scavenge actually takes from a list of the given length: none when the mark is zero. */
  function ScavengeTaken(lwm: nat, length: nat): nat
  {
    if lwm > 0 then Min(ScavengeAmount(lwm), length) else 0
  }

  /** fetch_from_central's request: the list bound, at most a batch and at least one object. */
  function NumToMove(m: nat, batch: nat): nat
  {
    Max(Min(m, batch), 1)
  }

  /** (m + b) less its remainder by b is (m + b) rounded down to a multiple of b: above m and at least b. */
  lemma {:induction false} RoundDown(m: nat, b: nat)
    requires b > 0
    ensures (m + b) - (m + b) % b == b * ((m + b) / b)
    ensures m < (m + b) - (m + b) % b && b <= (m + b) - (m + b) % b
  {
    var q := (m + b) / b;
    var r := (m + b) % b;
    assert m + b == b * q + r && 0 <= r < b;
    assert b * q > m;
    assert b * q == b * (q - 1) + b;
    assert b * (q - 1) >= 0;
  }

  /**
   * Growth on fetch keeps the bound in 1..MAX_DYNAMIC_FREE_LIST_LENGTH and
   * raises it strictly until it reaches the cap; past the slow start it is
   * at least a batch and a multiple of the batch size, unless capped.
   */
  lemma FetchGrowthBounds(m: nat, batch: nat)
    requires 1 <= m <= MAX_DYNAMIC_FREE_LIST_LENGTH && 1 <= batch <= MAX_DYNAMIC_FREE_LIST_LENGTH
    ensures 1 <= FetchGrowth(m, batch) <= MAX_DYNAMIC_FREE_LIST_LENGTH
    ensures m < MAX_DYNAMIC_FREE_LIST_LENGTH ==> FetchGrowth(m, batch) > m
    ensures m == MAX_DYNAMIC_FREE_LIST_LENGTH ==> FetchGrowth(m, batch) == m
    ensures m >= batch ==> batch <= FetchGrowth(m, batch)
    ensures m >= batch && FetchGrowth(m, batch) < MAX_DYNAMIC_FREE_LIST_LENGTH ==>
      FetchGrowth(m, batch) == batch * ((m + batch) / batch)
  {
    if m >= batch {
      RoundDown(m, batch);
    }
  }

  /**
   * The release adjustment keeps the bound in 1..MAX_DYNAMIC_FREE_LIST_LENGTH
   * and the overage count at most MAX_OVERAGES; a bound above the batch size
   * never drops below it, and it drops exactly on the overflow that follows
   * MAX_OVERAGES earlier ones.
   */
  lemma ReleaseAdjustBounds(b: Bound, batch: nat)
    requires 1 <= b.maxLength <= MAX_DYNAMIC_FREE_LIST_LENGTH && b.overages <= MAX_OVERAGES
    requires 1 <= batch <= MAX_DYNAMIC_FREE_LIST_LENGTH
    ensures 1 <= ReleaseAdjust(b, batch).maxLength <= MAX_DYNAMIC_FREE_LIST_LENGTH
    ensures ReleaseAdjust(b, batch).overages <= MAX_OVERAGES
    ensures b.maxLength > batch ==> batch <= ReleaseAdjust(b, batch).maxLength <= b.maxLength
    ensures b.maxLength > batch ==> (ReleaseAdjust(b, batch).maxLength < b.maxLength <==> b.overages == MAX_OVERAGES)
    ensures b.maxLength < batch ==> ReleaseAdjust(b, batch).maxLength == b.maxLength + 1
  {
  }

  /** A scavenge never raises a bound and never pushes one above the batch size below it. */
  lemma ScavengeShrinkBounds(m: nat, batch: nat)
    requires 1 <= m && 1 <= batch
    ensures 1 <= ScavengeShrink(m, batch) <= m
    ensures m > batch ==> batch <= ScavengeShrink(m, batch) < m
    ensures m <= batch ==> ScavengeShrink(m, batch) == m
  {
  }

  /**
   * A scavenge takes only objects that sat unused: never more than the
   * low-water mark, and at least one when the mark is positive and the
   * list is not empty.
   */
  lemma ScavengeTakenBounds(lwm: nat, length: nat)
    ensures ScavengeTaken(lwm, length) <= lwm && ScavengeTaken(lwm, length) <= length
    ensures lwm > 0 && length > 0 ==> ScavengeTaken(lwm, length) >= 1
    ensures lwm > 1 ==> 2 * ScavengeTaken(lwm, length) <= lwm
  {
  }

  /** The fetch request is at least one object and, for a bound of one or more, no more than the bound or a batch. */
  lemma NumToMoveBounds(m: nat, batch: nat)
    requires m >= 1 && batch >= 1
    ensures 1 <= NumToMove(m, batch) <= m && NumToMove(m, batch) <= batch
    ensures NumToMove(m, batch) == m || NumToMove(m, batch) == batch
  {
  }

  /** The batch size of class c: the objects moved between a thread list and the layers below at once. */
  function Batch(c: nat): (b: nat)
    requires c < NUM_SIZE_CLASSES
    ensures 1 <= c ==> 2 <= b <= 32
  {
    RowFacts(c);
    ClassInfo(c).batchSize
  }

  // ---------------------------------------------------------------------
  // Cached bytes

  /** Bytes held by n objects of class k. */
  function Share(k: nat, n: nat): nat
    requires k < NUM_SIZE_CLASSES
  {
    n * ClassToSize(k)
  }

  /** Bytes held by lists of the given lengths, class k holding lens[k] objects. */
  function Weighted(lens: seq<nat>): nat
    requires |lens| <= NUM_SIZE_CLASSES
  {
    if lens == [] then 0 else Weighted(lens[..|lens| - 1]) + Share(|lens| - 1, lens[|lens| - 1])
  }

  /** Changing the length of one class changes the cached bytes by that class's share alone. */
  lemma {:induction false} WeightedUpdate(lens: seq<nat>, c: nat, x: nat)
    requires |lens| <= NUM_SIZE_CLASSES && c < |lens|
    ensures Weighted(lens[c := x]) + Share(c, lens[c]) == Weighted(lens) + Share(c, x)
  {
    hide Share;
    var n := |lens| - 1;
    var ls := lens[c := x];
    assert ls[..n] == if c == n then lens[..n] else lens[..n][c := x];
    if c < n {
      WeightedUpdate(lens[..n], c, x);
    }
  }

  /** A class's share never exceeds the total. */
  lemma {:induction false} WeightedShare(lens: seq<nat>, c: nat)
    requires |lens| <= NUM_SIZE_CLASSES && c < |lens|
    ensures Share(c, lens[c]) <= Weighted(lens)
  {
    hide Share;
    var n := |lens| - 1;
    if c < n {
      WeightedShare(lens[..n], c);
    }
  }

  /** The bytes of a + b objects are those of a objects and of b objects. */
  lemma ShareAdd(k: nat, a: nat, b: nat)
    requires k < NUM_SIZE_CLASSES
    ensures Share(k, a + b) == Share(k, a) + Share(k, b)
  {
    hide ClassToSize;
    assert (a + b) * ClassToSize(k) == a * ClassToSize(k) + b * ClassToSize(k);
  }

  /** Lists that are all empty hold no bytes. */
  lemma {:induction false} WeightedZero(lens: seq<nat>)
    requires |lens| <= NUM_SIZE_CLASSES && forall k :: 0 <= k < |lens| ==> lens[k] == 0
    ensures Weighted(lens) == 0
  {
    hide ClassToSize;
    if lens != [] {
      WeightedZero(lens[..|lens| - 1]);
    }
  }

  /** The shared pool of cache budget not yet claimed by any thread. */
  class Budget {
    var unclaimed: int

    /** The pool before any thread has claimed from it. */
    constructor ()
      ensures unclaimed == OVERALL_THREAD_CACHE_SIZE
    {
      unclaimed := OVERALL_THREAD_CACHE_SIZE;
    }
  }

  /**
   * The free list of one size class in a thread cache, a struct stored
   * inline in the cache: its objects (the intrusive chain, head first), the
   * length counter, the bound, the count of consecutive overflows and the
   * shortest the list has been since the last scavenge.
   */
  datatype FreeList = FreeList(items: seq<nat>, length: nat, maxLength: nat, overages: nat, lowWater: nat)
  {
    ghost predicate Valid()
    {
      length == |items| && 1 <= maxLength <= MAX_DYNAMIC_FREE_LIST_LENGTH && overages <= MAX_OVERAGES
    }

    /** pop: nothing from an empty list, which is left alone; otherwise the head, and the low-water mark follows the length down. */
    function Pop(): (r: (FreeList, Option<nat>))
      requires Valid()
      ensures r.0.Valid() && r.0.maxLength == maxLength && r.0.overages == overages
      ensures items == [] <==> r.1 == None
      ensures items == [] ==> r.0 == this
      ensures items != [] ==> r.1 == Some(items[0]) && r.0.items == items[1..]
      ensures items != [] ==> r.0.lowWater == Min(lowWater, |r.0.items|) && r.0.lowWater <= lowWater
    {
      if items == [] then (this, None)
      else
        var n := length - 1;
        (this.(items := items[1..], length := n, lowWater := if n < lowWater then n else lowWater), Some(items[0]))
    }

    /** push: the object becomes the head; nothing else about the list changes. */
    function Push(obj: nat): (r: FreeList)
      requires Valid()
      ensures r.Valid() && r.items == [obj] + items && |r.items| == |items| + 1
      ensures r.maxLength == maxLength && r.overages == overages && r.lowWater == lowWater
    {
      this.(items := [obj] + items, length := length + 1)
    }

    /** push_batch: a chain of count objects goes in front, in its own order; an empty chain changes nothing. */
    function PushBatch(chain: seq<nat>, count: nat): (r: FreeList)
      requires Valid() && count == |chain|
      ensures r.Valid() && r.items == chain + items
      ensures r.maxLength == maxLength && r.overages == overages && r.lowWater == lowWater
    {
      if chain == [] || count == 0 then this
      else this.(items := chain + items, length := length + count)
    }

    /**
     * pop_batch: up to count objects come off the head one at a time, each
     * put in front of the chain built so far, so the chain is the popped
     * objects reversed and the first one popped is its tail.
     */
    method PopBatch(count: nat) returns (r: FreeList, n: nat, chain: seq<nat>)
      requires Valid()
      ensures r.Valid() && n == Min(count, |items|) && n == |chain|
      ensures chain == Reversed(items[..n]) && r.items == items[n..]
      ensures r.maxLength == maxLength && r.overages == overages && r.lowWater == lowWater
    {
      r, n, chain := this, 0, [];
      while n < count && r.items != []
        invariant n <= count && n <= |items| && r.Valid()
        invariant r.items == items[n..] && chain == Reversed(items[..n])
        invariant r.maxLength == maxLength && r.overages == overages && r.lowWater == lowWater
      {
        var obj := r.items[0];
        r := r.(items := r.items[1..], length := r.length - 1);
        assert items[..n + 1][..n] == items[..n];
        chain := [obj] + chain;
        n := n + 1;
      }
    }

    /** grow_max_length_on_fetch on this list: the bound grows and the overage count restarts; the objects stay. */
    function Grown(batch: nat): (r: FreeList)
      requires Valid() && 1 <= batch <= MAX_DYNAMIC_FREE_LIST_LENGTH
      ensures r.Valid() && r.items == items && r.lowWater == lowWater && r.overages == 0
      ensures maxLength < MAX_DYNAMIC_FREE_LIST_LENGTH ==> r.maxLength > maxLength
    {
      FetchGrowthBounds(maxLength, batch);
      this.(maxLength := FetchGrowth(maxLength, batch), overages := 0)
    }

    /** The bound adjustment at the end of release_to_central; the objects stay. */
    function Adjusted(batch: nat): (r: FreeList)
      requires Valid() && 1 <= batch <= MAX_DYNAMIC_FREE_LIST_LENGTH
      ensures r.Valid() && r.items == items && r.lowWater == lowWater
      ensures maxLength > batch ==> batch <= r.maxLength <= maxLength
    {
      ReleaseAdjustBounds(Bound(maxLength, overages), batch);
      var b := ReleaseAdjust(Bound(maxLength, overages), batch);
      this.(maxLength := b.maxLength, overages := b.overages)
    }

    /**
     * release_to_central on this list: up to a batch of objects leave the
     * front, then the bound adjusts; an empty list is left alone.
     */
    function Released(batch: nat): (r: FreeList)
      requires Valid() && 1 <= batch <= MAX_DYNAMIC_FREE_LIST_LENGTH
      ensures r.Valid() && r.items == items[Min(batch, |items|)..] && r.lowWater == lowWater
      ensures items == [] ==> r == this
      ensures items != [] ==> Bound(r.maxLength, r.overages) == ReleaseAdjust(Bound(maxLength, overages), batch)
    {
      if items == [] then this
      else
        var n := Min(batch, |items|);
        this.(items := items[n..], length := length - n).Adjusted(batch)
    }

    /** The end of scavenge's pass over this list: the bound shrinks towards the batch size and a new low-water epoch starts at the current length. */
    function Shrunk(batch: nat): (r: FreeList)
      requires Valid() && 1 <= batch <= MAX_DYNAMIC_FREE_LIST_LENGTH
      ensures r.Valid() && r.items == items && r.overages == overages && r.lowWater == |items|
      ensures r.maxLength <= maxLength && (maxLength > batch ==> batch <= r.maxLength)
    {
      ScavengeShrinkBounds(maxLength, batch);
      this.(maxLength := ScavengeShrink(maxLength, batch), lowWater := length)
    }
  }

  /** new: empty, with a bound of one object. */
  const EMPTY_LIST := FreeList([], 0, 1, 0, 0)

  /**
   * scavenge's effect on one list: the objects that sat unused leave the
   * front (never more than the low-water mark, at least one when it is
   * positive), the bound shrinks towards the batch size, and a new
   * low-water epoch starts at the new length.
   */
  function Scavenged(l: FreeList, batch: nat): (r: FreeList)
    requires l.Valid() && 1 <= batch <= MAX_DYNAMIC_FREE_LIST_LENGTH
    ensures r.Valid() && |r.items| <= |l.items| && l.items == l.items[..|l.items| - |r.items|] + r.items
    ensures |l.items| - |r.items| <= l.lowWater && (l.lowWater > 0 && l.items != [] ==> |r.items| < |l.items|)
    ensures r.lowWater == |r.items| && r.overages == l.overages && 1 <= r.maxLength <= l.maxLength
  {
    ScavengeTakenBounds(l.lowWater, |l.items|);
    ScavengeShrinkBounds(l.maxLength, batch);
    var k := ScavengeTaken(l.lowWater, |l.items|);
    var rest := l.items[k..];
    assert l.items == l.items[..|l.items| - |rest|] + rest;
    FreeList(rest, |rest|, ScavengeShrink(l.maxLength, batch), l.overages, |rest|)
  }

  /** A list that agrees with release_to_central's outcome field by field is that outcome. */
  lemma ReleasedIs(l0: FreeList, l1: FreeList, batch: nat)
    requires l0.Valid() && l1.Valid() && 1 <= batch <= MAX_DYNAMIC_FREE_LIST_LENGTH
    requires l0.items == [] ==> l1 == l0
    requires l0.items != [] ==> l1.items == l0.items[Min(batch, |l0.items|)..] && l1.lowWater == l0.lowWater
    requires l0.items != [] ==> Bound(l1.maxLength, l1.overages) == ReleaseAdjust(Bound(l0.maxLength, l0.overages), batch)
    ensures l1 == l0.Released(batch)
  {
  }

  /** The lists after scavenge's loop has passed the classes from 1 up to, but not including, c. */
  ghost function ScavengedBelow(ls: seq<FreeList>, c: nat): (r: seq<FreeList>)
    requires |ls| == NUM_SIZE_CLASSES && forall d :: 0 <= d < NUM_SIZE_CLASSES ==> ls[d].Valid()
    ensures |r| == NUM_SIZE_CLASSES
    ensures forall d :: 0 <= d < NUM_SIZE_CLASSES ==> r[d] == if 1 <= d < c then Scavenged(ls[d], Batch(d)) else ls[d]
  {
    seq(NUM_SIZE_CLASSES, d requires 0 <= d < NUM_SIZE_CLASSES => if 1 <= d < c then Scavenged(ls[d], Batch(d)) else ls[d])
  }

  /** One more pass of scavenge's loop. */
  lemma ScavengeStep(ls: seq<FreeList>, c: nat)
    requires |ls| == NUM_SIZE_CLASSES && forall d :: 0 <= d < NUM_SIZE_CLASSES ==> ls[d].Valid()
    requires 1 <= c < NUM_SIZE_CLASSES
    ensures ScavengedBelow(ls, c)[c] == ls[c]
    ensures ScavengedBelow(ls, c)[c := Scavenged(ls[c], Batch(c))] == ScavengedBelow(ls, c + 1)
  {
  }

  /** The length of each list, class by class. */
  function Lengths(ls: seq<FreeList>): (r: seq<nat>)
    ensures |r| == |ls| && forall i :: 0 <= i < |ls| ==> r[i] == ls[i].length
  {
    seq(|ls|, i requires 0 <= i < |ls| => ls[i].length)
  }

  // ---------------------------------------------------------------------
  // Object accounting

  /** A reversed chain holds the same objects, still without repeats. */
  lemma ReversedElems(xs: seq<nat>)
    requires NoDup(xs)
    ensures NoDup(Reversed(xs)) && Elems(Reversed(xs)) == Elems(xs)
  {
    var r := Reversed(xs);
    forall i, j | 0 <= i < j < |r|
      ensures r[i] != r[j]
    {
      assert r[i] == xs[|xs| - 1 - i] && r[j] == xs[|xs| - 1 - j];
    }
    forall o | o in xs
      ensures o in r
    {
      var k :| 0 <= k < |xs| && xs[k] == o;
      assert r[|xs| - 1 - k] == o;
    }
  }

  /** Splitting a list without repeats at k: both parts have none and share no object, and together they are the list. */
  lemma SplitAt(xs: seq<nat>, k: nat)
    requires NoDup(xs) && k <= |xs|
    ensures NoDup(xs[..k]) && NoDup(xs[k..]) && Elems(xs[..k]) !! Elems(xs[k..])
    ensures Elems(xs) == Elems(xs[..k]) + Elems(xs[k..])
  {
    assert xs == xs[..k] + xs[k..];
    NoDupSplit(xs[..k], xs[k..]);
  }

  /**
   * A batch drawn from the transfer cache (a hit: the stock loses it, the
   * central list is untouched) or from the central list (a miss: the stock
   * is empty and stays so, the batch is new to the objects handed out):
   * once the first object goes to the caller and the rest to the front of
   * the thread list, the thread list keeps its invariant and the caller
   * holds exactly one more object.
   */
  lemma DrawAccount(out0: set<nat>, stock0: set<nat>, items0: seq<nat>, out1: set<nat>, stock1: set<nat>, objs: seq<nat>)
    requires NoDup(items0) && Elems(items0) <= out0 && Elems(items0) !! stock0
    requires NoDup(objs) && objs != [] && Elems(objs) <= out1 && Elems(objs) !! stock1
    requires (out1 == out0 && stock0 == stock1 + Elems(objs)) || (stock1 == stock0 == {} && Elems(objs) !! out0 && out1 == out0 + Elems(objs))
    ensures NoDup(objs[1..] + items0) && Elems(objs[1..] + items0) <= out1 && Elems(objs[1..] + items0) !! stock1
    ensures objs[0] !in out0 - stock0 - Elems(items0)
    ensures out1 - stock1 - Elems(objs[1..] + items0) == (out0 - stock0 - Elems(items0)) + {objs[0]}
  {
    SplitAt(objs, 1);
    assert Elems(objs[..1]) == {objs[0]};
    NoDupJoin(objs[1..], items0);
  }

  /**
   * A batch taken from the front of a thread list and handed to the transfer
   * cache (the stock gains it) or to the central list (no longer handed
   * out): the rest of the list keeps its invariant and the objects the
   * caller holds do not change.
   */
  lemma ReleaseAccount(out0: set<nat>, stock0: set<nat>, items0: seq<nat>, k: nat, chain: seq<nat>, out1: set<nat>, stock1: set<nat>)
    requires NoDup(items0) && Elems(items0) <= out0 && Elems(items0) !! stock0 && k <= |items0|
    requires Elems(chain) == Elems(items0[..k])
    requires (out1 == out0 && stock1 == stock0 + Elems(chain)) || (stock1 == stock0 && out1 == out0 - Elems(chain))
    ensures NoDup(items0[k..]) && Elems(items0[k..]) <= out1 && Elems(items0[k..]) !! stock1
    ensures out1 - stock1 - Elems(items0[k..]) == out0 - stock0 - Elems(items0)
  {
    SplitAt(items0, k);
  }

  /** The head of a thread list goes to the caller: the rest keeps the invariant and the caller holds exactly the head more. */
  lemma PopAccount(out: set<nat>, stock: set<nat>, items: seq<nat>)
    requires NoDup(items) && items != [] && Elems(items) <= out && Elems(items) !! stock
    ensures NoDup(items[1..]) && Elems(items[1..]) <= out && Elems(items[1..]) !! stock
    ensures items[0] !in out - stock - Elems(items)
    ensures out - stock - Elems(items[1..]) == (out - stock - Elems(items)) + {items[0]}
  {
    SplitAt(items, 1);
    assert Elems(items[..1]) == {items[0]};
  }

  /** An object the caller holds goes to the front of a thread list: the list keeps the invariant and the caller holds exactly that object less. */
  lemma PushAccount(out: set<nat>, stock: set<nat>, items: seq<nat>, obj: nat)
    requires NoDup(items) && Elems(items) <= out && Elems(items) !! stock && obj in out - stock - Elems(items)
    ensures NoDup([obj] + items) && Elems([obj] + items) <= out && Elems([obj] + items) !! stock
    ensures out - stock - Elems([obj] + items) == (out - stock - Elems(items)) - {obj}
  {
    NoDupCons(obj, items);
  }

  /**
   * The transfer cache's insert_range on behalf of a thread: the chain
   * either joins the class's stock (the central list is untouched) or goes
   * back to the central list (no longer handed out), and no other class is
   * touched.
   */
  method Hand(c: nat, chain: seq<nat>, xfer: TransferCacheArray, central: CentralCache, heap: PageHeap)
    requires xfer.Valid() && central.Serves(heap) && xfer.Stocked(central) && central.Valid() && 1 <= c < NUM_SIZE_CLASSES
    requires NoDup(chain) && Elems(chain) <= central.Get(c).Out() && Elems(chain) !! Elems(xfer.Stock(c))
    modifies xfer.caches[c], xfer.caches[c].slots, central.Get(c), central.Get(c).nonempty, central.Get(c).spans
    modifies heap, heap.pm, heap.pm.root, heap.slab, heap.free
    ensures xfer.Valid() && central.Serves(heap) && xfer.Stocked(central) && central.Valid()
    ensures heap.free <= old(heap.free) + central.Repr
    ensures || (central.Get(c).Out() == old(central.Get(c).Out()) && Elems(xfer.Stock(c)) == old(Elems(xfer.Stock(c))) + Elems(chain))
            || (Elems(xfer.Stock(c)) == old(Elems(xfer.Stock(c))) && central.Get(c).Out() == old(central.Get(c).Out()) - Elems(chain))
    ensures forall d :: 0 <= d < NUM_SIZE_CLASSES && d != c ==> unchanged(xfer.caches[d], xfer.caches[d].slots, central.Get(d), central.Get(d).nonempty)
  {
    hide Fine, SpanList.Valid, OutOf, CoupledOn, CentralFreeList.Valid, CentralFreeList.Coherent, CentralFreeList.Linked;
    hide PageHeap.Valid, HeapViews.Good, PageHeap.Coupled, PageMaps.PageMap.Valid;
    hide CentralCache.Serves, TransferCacheArray.Stocked, TransferCacheArray.Backs, ClassInfo, ClassToSize;
    ghost var s0 := xfer.caches[c].Stack();
    xfer.InsertRange(c, chain, |chain|, central, heap);
    if xfer.caches[c].Stack() != s0 {
      FlatSnoc(s0, chain);
    }
    forall d | 0 <= d < NUM_SIZE_CLASSES && d != c
      ensures unchanged(xfer.caches[d], xfer.caches[d].slots, central.Get(d), central.Get(d).nonempty)
    {
      central.GetApart(c, d);
      xfer.CachesApart(c, d);
    }
  }

  /** A change to the list of class c changes only class c's length. */
  lemma LengthsUpdate(ls: seq<FreeList>, c: nat, l: FreeList)
    requires c < |ls|
    ensures Lengths(ls[c := l]) == Lengths(ls)[c := l.length]
  {
  }

  /** Replacing the list of class c changes the cached bytes by the difference of its two shares alone. */
  lemma Recount(ls: seq<FreeList>, c: nat, l: FreeList)
    requires |ls| == NUM_SIZE_CLASSES && c < NUM_SIZE_CLASSES
    ensures Weighted(Lengths(ls[c := l])) + Share(c, ls[c].length) == Weighted(Lengths(ls)) + Share(c, l.length)
    ensures Share(c, ls[c].length) <= Weighted(Lengths(ls))
  {
    LengthsUpdate(ls, c, l);
    WeightedUpdate(Lengths(ls), c, l.length);
    WeightedShare(Lengths(ls), c);
  }

  /**
   * The thread list of class c, holding items, has each object at most
   * once, only objects the central list counts as handed out, and none the
   * transfer cache holds.
   */
  ghost predicate Owns(c: nat, items: seq<nat>, xfer: TransferCacheArray, central: CentralCache)
    reads xfer, xfer.caches[c], xfer.caches[c].slots, central.Get(c), central.Get(c).nonempty
    requires c < |xfer.caches| && xfer.caches[c].Valid() && central.Valid() && c < NUM_SIZE_CLASSES
  {
    NoDup(items) && Elems(items) <= central.Get(c).Out() && Elems(items) !! Elems(xfer.Stock(c))
  }

  /**
   * The objects of class c the program holds while the thread list holds
   * items: handed out by the central list and held by neither the transfer
   * cache nor the thread list.
   */
  ghost function UserHeld(c: nat, items: seq<nat>, xfer: TransferCacheArray, central: CentralCache): set<nat>
    reads xfer, xfer.caches[c], xfer.caches[c].slots, central.Get(c), central.Get(c).nonempty
    requires c < |xfer.caches| && xfer.caches[c].Valid() && central.Valid() && c < NUM_SIZE_CLASSES
  {
    central.Get(c).Out() - Elems(xfer.Stock(c)) - Elems(items)
  }

  lemma OwnsParts(c: nat, items: seq<nat>, xfer: TransferCacheArray, central: CentralCache)
    requires c < |xfer.caches| && xfer.caches[c].Valid() && central.Valid() && c < NUM_SIZE_CLASSES && Owns(c, items, xfer, central)
    ensures NoDup(items) && Elems(items) <= central.Get(c).Out() && Elems(items) !! Elems(xfer.Stock(c))
  {
  }

  lemma OwnsFrom(c: nat, items: seq<nat>, xfer: TransferCacheArray, central: CentralCache)
    requires c < |xfer.caches| && xfer.caches[c].Valid() && central.Valid() && c < NUM_SIZE_CLASSES
    requires NoDup(items) && Elems(items) <= central.Get(c).Out() && Elems(items) !! Elems(xfer.Stock(c))
    ensures Owns(c, items, xfer, central)
  {
  }

  lemma HeldIs(c: nat, items: seq<nat>, xfer: TransferCacheArray, central: CentralCache)
    requires c < |xfer.caches| && xfer.caches[c].Valid() && central.Valid() && c < NUM_SIZE_CLASSES
    ensures UserHeld(c, items, xfer, central) == central.Get(c).Out() - Elems(xfer.Stock(c)) - Elems(items)
  {
  }

  /** What the program holds of every class while no thread list holds anything, built class by class. */
  ghost method Ledger(xfer: TransferCacheArray, central: CentralCache) returns (ledger: seq<set<nat>>)
    requires |xfer.caches| == NUM_SIZE_CLASSES && (forall c :: 0 <= c < NUM_SIZE_CLASSES ==> xfer.caches[c].Valid()) && central.Valid()
    ensures |ledger| == NUM_SIZE_CLASSES && forall c :: 0 <= c < NUM_SIZE_CLASSES ==> ledger[c] == UserHeld(c, [], xfer, central)
  {
    hide UserHeld;
    ledger := [];
    var k := 0;
    while k < NUM_SIZE_CLASSES
      invariant k <= NUM_SIZE_CLASSES && |ledger| == k
      invariant forall c :: 0 <= c < k ==> ledger[c] == UserHeld(c, [], xfer, central)
    {
      ledger := ledger + [UserHeld(k, [], xfer, central)];
      k := k + 1;
    }
  }

  /** The per-thread cache: a free list per size class, the bytes they hold, and the thread's byte budget. */
  class ThreadCache {
    /** The free list of each size class, stored in the cache itself. */
    var lists: seq<FreeList>
    /** Bytes cached over all lists. */
    var totalSize: nat
    /** The thread's byte budget; zero while the cache is not initialised. */
    var maxSize: nat
    /** The objects of each class the program holds, as the cache's ledger records them. */
    ghost var held: seq<set<nat>>

    /**
     * A list per class, each well formed; the list of the sentinel class 0
     * stays empty; total_size is the bytes the lists hold.
     */
    ghost predicate Valid()
      reads this`lists, this`totalSize
    {
      && |lists| == NUM_SIZE_CLASSES
      && (forall c :: 0 <= c < NUM_SIZE_CLASSES ==> lists[c].Valid())
      && lists[0].items == []
      && totalSize == Weighted(Lengths(lists))
    }

    /** One class's list, as the invariant has it. */
    lemma ListOk(c: nat)
      requires Valid() && c < NUM_SIZE_CLASSES
      ensures |lists| == NUM_SIZE_CLASSES && lists[c].Valid() && totalSize == Weighted(Lengths(lists)) && lists[0].items == []
    {
    }

    /** Every list, as the invariant has it. */
    lemma ListsOk()
      requires Valid()
      ensures |lists| == NUM_SIZE_CLASSES && forall c :: 0 <= c < NUM_SIZE_CLASSES ==> lists[c].Valid()
    {
    }

    /** Lists that are all empty hold no bytes. */
    lemma NothingCached()
      requires Valid() && forall d :: 0 <= d < NUM_SIZE_CLASSES ==> lists[d].items == []
      ensures totalSize == 0
    {
      WeightedZero(Lengths(lists));
    }

    /** The whole allocator below this thread is consistent, and this thread's lists hold only what is theirs. */
    ghost predicate Ready(xfer: TransferCacheArray, central: CentralCache, heap: PageHeap)
      reads this`lists, this`totalSize, this`held, xfer, xfer.caches, xfer.slotArrays, central, central.lists, central.fronts, central.Repr
      reads heap, heap.live`startPage, heap.live`numPages, heap.live`state, heap.pm, heap.pm.root, heap.os, heap.slab
    {
      && Valid() && xfer.Valid() && central.Serves(heap) && xfer.Stocked(central) && |held| == NUM_SIZE_CLASSES
      && (forall c :: 0 <= c < NUM_SIZE_CLASSES ==> Owns(c, lists[c].items, xfer, central) && held[c] == UserHeld(c, lists[c].items, xfer, central))
    }

    /** The shapes the other predicates' preconditions need: a list, a ledger entry and a transfer cache per class. */
    ghost predicate Shaped(xfer: TransferCacheArray, central: CentralCache)
      reads this`lists, this`held, xfer, xfer.caches
    {
      && |lists| == NUM_SIZE_CLASSES && |held| == NUM_SIZE_CLASSES && |xfer.caches| == NUM_SIZE_CLASSES
      && (forall c :: 0 <= c < NUM_SIZE_CLASSES ==> xfer.caches[c].Valid()) && central.Valid()
    }

    lemma ReadyParts(xfer: TransferCacheArray, central: CentralCache, heap: PageHeap)
      requires Ready(xfer, central, heap)
      ensures Valid() && xfer.Valid() && central.Serves(heap) && xfer.Stocked(central) && central.Valid() && Shaped(xfer, central)
      ensures forall c :: 0 <= c < NUM_SIZE_CLASSES ==> Owns(c, lists[c].items, xfer, central) && held[c] == UserHeld(c, lists[c].items, xfer, central)
    {
    }

    lemma ReadyFrom(xfer: TransferCacheArray, central: CentralCache, heap: PageHeap)
      requires Valid() && xfer.Valid() && central.Serves(heap) && xfer.Stocked(central) && central.Valid() && |held| == NUM_SIZE_CLASSES
      requires forall c :: 0 <= c < NUM_SIZE_CLASSES ==> Owns(c, lists[c].items, xfer, central) && held[c] == UserHeld(c, lists[c].items, xfer, central)
      ensures Ready(xfer, central, heap)
    {
    }

    /** The objects a step on class c changes lie within the footprint of the transfer caches and the central lists. */
    lemma Footprint(c: nat, xfer: TransferCacheArray, central: CentralCache, heap: PageHeap)
      requires Ready(xfer, central, heap) && c < NUM_SIZE_CLASSES
      ensures c < |xfer.caches| && xfer.caches[c].slots in xfer.slotArrays && central.Valid()
      ensures central.Get(c).nonempty in central.fronts && central.Get(c).spans <= central.Repr
    {
      central.ServesParts(heap);
    }

    /**
     * Records, class by class, what the program holds: everything the
     * central lists handed out that the transfer cache does not hold. Empty
     * lists own nothing, so a fresh cache is then ready over any consistent
     * allocator.
     */
    ghost method Adopt(xfer: TransferCacheArray, central: CentralCache, heap: PageHeap)
      requires Valid() && xfer.Valid() && central.Serves(heap) && xfer.Stocked(central) && central.Valid()
      requires forall c :: 0 <= c < NUM_SIZE_CLASSES ==> lists[c].items == []
      modifies this`held
      ensures Ready(xfer, central, heap)
    {
      ListOk(0);
      hide Fine, SpanList.Valid, OutOf, CoupledOn, CentralFreeList.Valid, CentralFreeList.Coherent, CentralFreeList.Linked;
      hide PageHeap.Valid, HeapViews.Good, PageHeap.Coupled, PageMaps.PageMap.Valid;
      hide CentralCache.Serves, TransferCacheArray.Stocked, TransferCacheArray.Backs, Ready, Owns, UserHeld, Valid;
      Record(xfer, central);
      LedgerReady(xfer, central, heap);
    }

    /** The ledger set to what the program holds of each class while the thread lists hold nothing. */
    ghost method Record(xfer: TransferCacheArray, central: CentralCache)
      requires |xfer.caches| == NUM_SIZE_CLASSES && (forall c :: 0 <= c < NUM_SIZE_CLASSES ==> xfer.caches[c].Valid()) && central.Valid()
      modifies this`held
      ensures |held| == NUM_SIZE_CLASSES && forall c :: 0 <= c < NUM_SIZE_CLASSES ==> held[c] == UserHeld(c, [], xfer, central)
    {
      hide UserHeld;
      held := Ledger(xfer, central);
      forall c | 0 <= c < NUM_SIZE_CLASSES
        ensures held[c] == UserHeld(c, [], xfer, central)
      {
        assert unchanged(xfer, xfer.caches[c], xfer.caches[c].slots, central.Get(c), central.Get(c).nonempty);
      }
    }

    /** Empty lists own nothing, so a ledger of everything the program holds makes the cache ready. */
    lemma LedgerReady(xfer: TransferCacheArray, central: CentralCache, heap: PageHeap)
      requires Valid() && xfer.Valid() && central.Serves(heap) && xfer.Stocked(central) && central.Valid()
      requires forall c :: 0 <= c < NUM_SIZE_CLASSES ==> lists[c].items == []
      requires |held| == NUM_SIZE_CLASSES && forall c :: 0 <= c < NUM_SIZE_CLASSES ==> held[c] == UserHeld(c, [], xfer, central)
      ensures Ready(xfer, central, heap)
      ensures forall c :: 0 <= c < NUM_SIZE_CLASSES ==> held[c] == central.Get(c).Out() - Elems(xfer.Stock(c))
    {
      hide Fine, SpanList.Valid, OutOf, CoupledOn, CentralFreeList.Valid, CentralFreeList.Coherent, CentralFreeList.Linked;
      hide PageHeap.Valid, HeapViews.Good, PageHeap.Coupled, PageMaps.PageMap.Valid;
      hide CentralCache.Serves, TransferCacheArray.Stocked, TransferCacheArray.Backs, Ready, Owns, UserHeld;
      forall c | 0 <= c < NUM_SIZE_CLASSES
        ensures Owns(c, lists[c].items, xfer, central) && held[c] == UserHeld(c, lists[c].items, xfer, central)
        ensures held[c] == central.Get(c).Out() - Elems(xfer.Stock(c))
      {
        OwnsFrom(c, [], xfer, central);
        HeldIs(c, [], xfer, central);
      }
      ReadyFrom(xfer, central, heap);
    }

    /** new_const: every list empty with a bound of one, nothing cached, and no budget: the not-yet-initialised state. */
    constructor NewConst()
      ensures Valid() && maxSize == 0 && totalSize == 0
      ensures forall c :: 0 <= c < NUM_SIZE_CLASSES ==> lists[c] == EMPTY_LIST
    {
      lists := seq(NUM_SIZE_CLASSES, _ => EMPTY_LIST);
      totalSize := 0;
      maxSize := 0;
      new;
      WeightedZero(Lengths(lists));
    }

    /** new: as new_const, with the minimum per-thread budget claimed from the shared pool. */
    constructor New(budget: Budget)
      modifies budget
      ensures Valid() && maxSize == MIN_PER_THREAD_CACHE_SIZE && totalSize == 0
      ensures forall c :: 0 <= c < NUM_SIZE_CLASSES ==> lists[c] == EMPTY_LIST
      ensures budget.unclaimed == old(budget.unclaimed) - MIN_PER_THREAD_CACHE_SIZE
    {
      budget.unclaimed := budget.unclaimed - MIN_PER_THREAD_CACHE_SIZE;
      lists := seq(NUM_SIZE_CLASSES, _ => EMPTY_LIST);
      totalSize := 0;
      maxSize := MIN_PER_THREAD_CACHE_SIZE;
      new;
      WeightedZero(Lengths(lists));
    }

    /** init: claims the minimum per-thread budget from the shared pool; from an uninitialised cache the pool and the cache together keep their total. */
    method Init(budget: Budget)
      modifies this`maxSize, budget
      ensures maxSize == MIN_PER_THREAD_CACHE_SIZE && budget.unclaimed == old(budget.unclaimed) - MIN_PER_THREAD_CACHE_SIZE
      ensures old(maxSize) == 0 ==> budget.unclaimed + maxSize == old(budget.unclaimed)
    {
      budget.unclaimed := budget.unclaimed - MIN_PER_THREAD_CACHE_SIZE;
      maxSize := MIN_PER_THREAD_CACHE_SIZE;
    }

    /** is_initialized: the thread has claimed a budget. */
    function IsInitialized(): (r: bool)
      reads this`maxSize
      ensures r <==> maxSize != 0
    {
      maxSize > 0
    }

    /**
     * increase_cache_limit: takes STEAL_AMOUNT from the shared pool when the
     * pool has that much; otherwise nothing changes. Budget moves, it is
     * never made or lost.
     */
    method IncreaseCacheLimit(budget: Budget)
      modifies this`maxSize, budget
      ensures old(budget.unclaimed) < STEAL_AMOUNT ==> maxSize == old(maxSize) && budget.unclaimed == old(budget.unclaimed)
      ensures old(budget.unclaimed) >= STEAL_AMOUNT ==> maxSize == old(maxSize) + STEAL_AMOUNT && budget.unclaimed == old(budget.unclaimed) - STEAL_AMOUNT
      ensures budget.unclaimed + maxSize == old(budget.unclaimed) + old(maxSize)
      ensures old(budget.unclaimed) >= 0 ==> budget.unclaimed >= 0
    {
      var current := budget.unclaimed;
      if current < STEAL_AMOUNT {
        return;
      }
      budget.unclaimed := current - STEAL_AMOUNT;
      maxSize := maxSize + STEAL_AMOUNT;
    }

    /**
     * The transfer cache's remove_range on behalf of this thread: the
     * objects come off the class's stock (a hit) or are newly handed out by
     * the central list (a miss), and no other class is touched.
     */
    method Draw(c: nat, want: nat, xfer: TransferCacheArray, central: CentralCache, heap: PageHeap) returns (count: nat, objs: seq<nat>)
      requires Ready(xfer, central, heap) && 1 <= c < NUM_SIZE_CLASSES
      modifies xfer.caches[c], central, central.Get(c), central.Get(c).nonempty, central.Get(c).spans
      modifies heap, heap.pm, heap.pm.root, heap.slab, heap.os, heap.slab.freeList, heap.free
      ensures xfer.Valid() && central.Serves(heap) && xfer.Stocked(central) && central.Valid()
      ensures count == |objs| && NoDup(objs) && Elems(objs) <= central.Get(c).Out() && Elems(objs) !! Elems(xfer.Stock(c))
      ensures count <= want || count == Batch(c)
      ensures || (central.Get(c).Out() == old(central.Get(c).Out()) && old(Elems(xfer.Stock(c))) == Elems(xfer.Stock(c)) + Elems(objs))
              || (old(xfer.Stock(c)) == xfer.Stock(c) == [] && Elems(objs) !! old(central.Get(c).Out()) && central.Get(c).Out() == old(central.Get(c).Out()) + Elems(objs))
      ensures forall d :: 0 <= d < NUM_SIZE_CLASSES && d != c ==> unchanged(xfer.caches[d], xfer.caches[d].slots, central.Get(d), central.Get(d).nonempty)
    {
      hide Fine, SpanList.Valid, OutOf, CoupledOn, CentralFreeList.Valid, CentralFreeList.Coherent, CentralFreeList.Linked;
      hide PageHeap.Valid, HeapViews.Good, PageHeap.Coupled, PageMaps.PageMap.Valid;
      hide CentralCache.Serves, TransferCacheArray.Stocked, TransferCacheArray.Backs, Ready, Owns, UserHeld, Valid;
      ReadyParts(xfer, central, heap);
      ghost var s0 := xfer.caches[c].Stack();
      count, objs := xfer.RemoveRange(c, want, central, heap);
      if s0 != [] {
        ObjectsKept(s0, []);
      }
      forall d | 0 <= d < NUM_SIZE_CLASSES && d != c
        ensures unchanged(xfer.caches[d], xfer.caches[d].slots, central.Get(d), central.Get(d).nonempty)
      {
        central.GetApart(c, d);
        xfer.CachesApart(c, d);
      }
    }

    /** Draw, with every other class's list still owning what it did and the program holding the same of it. */
    method Obtain(c: nat, want: nat, xfer: TransferCacheArray, central: CentralCache, heap: PageHeap) returns (count: nat, objs: seq<nat>)
      requires Ready(xfer, central, heap) && 1 <= c < NUM_SIZE_CLASSES
      modifies xfer.caches[c], central, central.Get(c), central.Get(c).nonempty, central.Get(c).spans
      modifies heap, heap.pm, heap.pm.root, heap.slab, heap.os, heap.slab.freeList, heap.free
      ensures xfer.Valid() && central.Serves(heap) && xfer.Stocked(central) && central.Valid() && Shaped(xfer, central)
      ensures count == |objs| && NoDup(objs) && Elems(objs) <= central.Get(c).Out() && Elems(objs) !! Elems(xfer.Stock(c))
      ensures count <= want || count == Batch(c)
      ensures || (central.Get(c).Out() == old(central.Get(c).Out()) && old(Elems(xfer.Stock(c))) == Elems(xfer.Stock(c)) + Elems(objs))
              || (old(xfer.Stock(c)) == xfer.Stock(c) == [] && Elems(objs) !! old(central.Get(c).Out()) && central.Get(c).Out() == old(central.Get(c).Out()) + Elems(objs))
      ensures forall d :: 0 <= d < NUM_SIZE_CLASSES && d != c ==> Owns(d, lists[d].items, xfer, central) && held[d] == UserHeld(d, lists[d].items, xfer, central)
    {
      hide Fine, SpanList.Valid, OutOf, CoupledOn, CentralFreeList.Valid, CentralFreeList.Coherent, CentralFreeList.Linked;
      hide PageHeap.Valid, HeapViews.Good, PageHeap.Coupled, PageMaps.PageMap.Valid;
      hide CentralCache.Serves, TransferCacheArray.Stocked, TransferCacheArray.Backs, Ready, Owns, UserHeld, Valid;
      ReadyParts(xfer, central, heap);
      count, objs := Draw(c, want, xfer, central, heap);
      forall d | 0 <= d < NUM_SIZE_CLASSES && d != c
        ensures Owns(d, lists[d].items, xfer, central) && held[d] == UserHeld(d, lists[d].items, xfer, central)
      {
        assert unchanged(xfer, xfer.caches[d], xfer.caches[d].slots, central.Get(d), central.Get(d).nonempty);
        assert old(Owns(d, lists[d].items, xfer, central) && held[d] == UserHeld(d, lists[d].items, xfer, central));
      }
    }

    /**
     * The list side of a successful fetch: the objects past the first go to
     * the front of the list of class c, in their order (push_batch), their
     * bytes are counted, and the list's bound grows.
     */
    method Stash(c: nat, rest: seq<nat>)
      requires Valid() && 1 <= c < NUM_SIZE_CLASSES
      modifies this`lists, this`totalSize
      ensures Valid() && lists == old(lists)[c := old(lists[c]).PushBatch(rest, |rest|).Grown(Batch(c))]
      ensures totalSize == old(totalSize) + Share(c, |rest|)
    {
      hide ClassInfo, ClassToSize;
      var count := |rest|;
      if count > 0 {
        var pushed := lists[c].PushBatch(rest, count);
        Recount(lists, c, pushed);
        ShareAdd(c, lists[c].length, count);
        totalSize := totalSize + count * ClassToSize(c);
        lists := lists[c := pushed];
      }
      var grown := lists[c].Grown(Batch(c));
      Recount(lists, c, grown);
      lists := lists[c := grown];
    }

    /** Ready, except that what the list of class c owns is not said. */
    ghost predicate ReadyBut(c: nat, xfer: TransferCacheArray, central: CentralCache, heap: PageHeap)
      reads this`lists, this`totalSize, this`held, xfer, xfer.caches, xfer.slotArrays, central, central.lists, central.fronts, central.Repr
      reads heap, heap.live`startPage, heap.live`numPages, heap.live`state, heap.pm, heap.pm.root, heap.os, heap.slab
    {
      && Valid() && xfer.Valid() && central.Serves(heap) && xfer.Stocked(central) && central.Valid() && Shaped(xfer, central)
      && (forall d :: 0 <= d < NUM_SIZE_CLASSES && d != c ==> Owns(d, lists[d].items, xfer, central) && held[d] == UserHeld(d, lists[d].items, xfer, central))
    }

    /** A fetched batch objs for class c: with its tail in front of the list, the list owns what it holds, and the program holds the head more. */
    ghost predicate Receivable(c: nat, objs: seq<nat>, xfer: TransferCacheArray, central: CentralCache)
      reads this`lists, this`held, xfer, xfer.caches, xfer.slotArrays, central, central.lists, central.fronts, central.Repr
    {
      && c < NUM_SIZE_CLASSES && |lists| == NUM_SIZE_CLASSES && |held| == NUM_SIZE_CLASSES && objs != []
      && xfer.Valid() && central.Valid() && |xfer.caches| == NUM_SIZE_CLASSES
      && Owns(c, objs[1..] + lists[c].items, xfer, central) && UserHeld(c, objs[1..] + lists[c].items, xfer, central) == held[c] + {objs[0]}
    }

    /**
     * The thread side of a successful fetch: the objects past the first go
     * on the list of class c (Stash), and the program holds the first one
     * more.
     */
    method Receive(c: nat, objs: seq<nat>, ghost xfer: TransferCacheArray, ghost central: CentralCache, ghost heap: PageHeap)
      requires ReadyBut(c, xfer, central, heap) && Receivable(c, objs, xfer, central) && 1 <= c
      modifies this`lists, this`totalSize, this`held
      ensures Ready(xfer, central, heap) && lists == old(lists)[c := lists[c]] && |objs| >= 1
      ensures lists[c].items == objs[1..] + old(lists[c].items) && lists[c].lowWater == old(lists[c].lowWater)
      ensures lists[c].maxLength == FetchGrowth(old(lists[c].maxLength), Batch(c)) && lists[c].overages == 0
      ensures totalSize == old(totalSize) + Share(c, |objs| - 1) && held == old(held)[c := old(held[c]) + {objs[0]}]
    {
      hide Fine, SpanList.Valid, OutOf, CoupledOn, CentralFreeList.Valid, CentralFreeList.Coherent, CentralFreeList.Linked;
      hide PageHeap.Valid, HeapViews.Good, PageHeap.Coupled, PageMaps.PageMap.Valid;
      hide CentralCache.Serves, TransferCacheArray.Stocked, TransferCacheArray.Backs, Ready, Owns, UserHeld;
      hide ClassInfo, ClassToSize;
      Stash(c, objs[1..]);
      held := held[c := held[c] + {objs[0]}];
      forall d | 0 <= d < NUM_SIZE_CLASSES
        ensures Owns(d, lists[d].items, xfer, central) && held[d] == UserHeld(d, lists[d].items, xfer, central)
      {
        assert unchanged(xfer, xfer.caches[d], xfer.caches[d].slots, central.Get(d), central.Get(d).nonempty);
        if d != c {
          assert lists[d] == old(lists[d]) && held[d] == old(held[d]);
          assert old(Owns(d, lists[d].items, xfer, central) && held[d] == UserHeld(d, lists[d].items, xfer, central));
        } else {
          assert lists[c].items == objs[1..] + old(lists[c].items);
          assert old(Owns(c, objs[1..] + lists[c].items, xfer, central) && UserHeld(c, objs[1..] + lists[c].items, xfer, central) == held[c] + {objs[0]});
        }
      }
      ReadyFrom(xfer, central, heap);
    }

    /**
     * fetch_from_central: asks the transfer cache for the list bound's worth
     * of objects (at most a batch, at least one); the first object goes to
     * the caller and the rest to the front of the list, whose bound then
     * grows. Nothing fetched (out of memory) leaves the list alone.
     */
    method FetchFromCentral(c: nat, xfer: TransferCacheArray, central: CentralCache, heap: PageHeap) returns (obj: Option<nat>, ghost got: seq<nat>)
      requires Ready(xfer, central, heap) && 1 <= c < NUM_SIZE_CLASSES
      modifies this`totalSize, this`lists, this`held, xfer.caches[c], central, central.Get(c), central.Get(c).nonempty, central.Get(c).spans
      modifies heap, heap.pm, heap.pm.root, heap.slab, heap.os, heap.slab.freeList, heap.free
      ensures Ready(xfer, central, heap) && lists == old(lists)[c := lists[c]]
      ensures |got| <= NumToMove(old(lists[c].maxLength), Batch(c)) || |got| == Batch(c)
      ensures got == [] ==> obj == None && lists == old(lists) && totalSize == old(totalSize) && held == old(held)
      ensures got != [] ==> obj == Some(got[0]) && lists[c].items == got[1..] + old(lists[c].items)
      ensures got != [] ==> lists[c].maxLength == FetchGrowth(old(lists[c].maxLength), Batch(c)) && lists[c].overages == 0
      ensures lists[c].lowWater == old(lists[c].lowWater)
      ensures got != [] ==> totalSize == old(totalSize) + Share(c, |got| - 1)
      ensures got != [] ==> got[0] !in old(held[c]) && held == old(held)[c := old(held[c]) + {got[0]}]
    {
      hide Fine, SpanList.Valid, OutOf, CoupledOn, CentralFreeList.Valid, CentralFreeList.Coherent, CentralFreeList.Linked;
      hide PageHeap.Valid, HeapViews.Good, PageHeap.Coupled, PageMaps.PageMap.Valid;
      hide CentralCache.Serves, TransferCacheArray.Stocked, TransferCacheArray.Backs, Ready, Owns, UserHeld, Valid;
      hide ClassInfo, ClassToSize;
      ReadyParts(xfer, central, heap);
      ghost var items0 := lists[c].items;
      OwnsParts(c, items0, xfer, central);
      var numToMove := Max(Min(lists[c].maxLength, Batch(c)), 1);
      ghost var stock0 := Elems(xfer.Stock(c));
      ghost var out0 := central.Get(c).Out();
      HeldIs(c, items0, xfer, central);
      var count, objs := Obtain(c, numToMove, xfer, central, heap);
      got := objs;
      if count == 0 || objs == [] {
        OwnsFrom(c, items0, xfer, central);
        HeldIs(c, items0, xfer, central);
        ReadyFrom(xfer, central, heap);
        obj := None;
      } else {
        DrawAccount(out0, stock0, items0, central.Get(c).Out(), Elems(xfer.Stock(c)), objs);
        OwnsFrom(c, objs[1..] + items0, xfer, central);
        HeldIs(c, objs[1..] + items0, xfer, central);
        assert ReadyBut(c, xfer, central, heap) && Receivable(c, objs, xfer, central);
        Receive(c, objs, xfer, central, heap);
        obj := Some(objs[0]);
      }
    }

    /**
     * The list side of a release: up to k objects come off the front of
     * the list of class c (pop_batch) and their bytes are no longer counted.
     */
    method Unstash(c: nat, k: nat) returns (n: nat, chain: seq<nat>)
      requires Valid() && 1 <= c < NUM_SIZE_CLASSES
      modifies this`lists, this`totalSize
      ensures Valid() && lists == old(lists)[c := lists[c]] && n == Min(k, |old(lists[c].items)|) && n == |chain|
      ensures chain == Reversed(old(lists[c].items)[..n]) && lists[c].items == old(lists[c].items)[n..]
      ensures lists[c].maxLength == old(lists[c].maxLength) && lists[c].overages == old(lists[c].overages) && lists[c].lowWater == old(lists[c].lowWater)
      ensures totalSize == old(totalSize) - Share(c, n)
    {
      hide ClassInfo, ClassToSize;
      var popped;
      popped, n, chain := lists[c].PopBatch(k);
      Recount(lists, c, popped);
      ShareAdd(c, popped.length, n);
      totalSize := totalSize - n * ClassToSize(c);
      lists := lists[c := popped];
    }

    /**
     * Up to k objects from the front of the list of class c go back to the
     * transfer cache (pop_batch, then insert_range) and their bytes are no
     * longer counted; the caller's objects, in every class, are the same.
     */
    method Shed(c: nat, k: nat, xfer: TransferCacheArray, central: CentralCache, heap: PageHeap) returns (n: nat)
      requires Ready(xfer, central, heap) && 1 <= c < NUM_SIZE_CLASSES
      modifies this`lists, this`totalSize, xfer.caches[c], xfer.caches[c].slots, central.Get(c), central.Get(c).nonempty, central.Get(c).spans
      modifies heap, heap.pm, heap.pm.root, heap.slab, heap.free
      ensures Ready(xfer, central, heap) && heap.free <= old(heap.free) + central.Repr && lists == old(lists)[c := lists[c]]
      ensures n == Min(k, |old(lists[c].items)|) && lists[c].items == old(lists[c].items)[n..] && totalSize == old(totalSize) - Share(c, n)
      ensures lists[c].maxLength == old(lists[c].maxLength) && lists[c].overages == old(lists[c].overages) && lists[c].lowWater == old(lists[c].lowWater)
    {
      hide Fine, SpanList.Valid, OutOf, CoupledOn, CentralFreeList.Valid, CentralFreeList.Coherent, CentralFreeList.Linked;
      hide PageHeap.Valid, HeapViews.Good, PageHeap.Coupled, PageMaps.PageMap.Valid;
      hide CentralCache.Serves, TransferCacheArray.Stocked, TransferCacheArray.Backs, Ready, Owns, UserHeld, Valid;
      hide ClassInfo, ClassToSize;
      ReadyParts(xfer, central, heap);
      ghost var items0 := lists[c].items;
      OwnsParts(c, items0, xfer, central);
      ghost var out0 := central.Get(c).Out();
      ghost var stock0 := Elems(xfer.Stock(c));
      HeldIs(c, items0, xfer, central);
      SplitAt(items0, Min(k, |items0|));
      var chain;
      n, chain := Unstash(c, k);
      ReversedElems(items0[..n]);
      Hand(c, chain, xfer, central, heap);
      ReleaseAccount(out0, stock0, items0, n, chain, central.Get(c).Out(), Elems(xfer.Stock(c)));
      HeldIs(c, lists[c].items, xfer, central);
      OwnsFrom(c, lists[c].items, xfer, central);
      forall d | 0 <= d < NUM_SIZE_CLASSES && d != c
        ensures Owns(d, lists[d].items, xfer, central) && held[d] == UserHeld(d, lists[d].items, xfer, central)
      {
        assert unchanged(xfer, xfer.caches[d], xfer.caches[d].slots, central.Get(d), central.Get(d).nonempty);
      }
      ReadyFrom(xfer, central, heap);
    }

    /**
     * Replacing the list of class c by one with the same objects keeps the
     * cache ready: what each list owns and what the program holds depend on
     * the objects alone.
     */
    method Retune(c: nat, l: FreeList, ghost xfer: TransferCacheArray, ghost central: CentralCache, ghost heap: PageHeap)
      requires Ready(xfer, central, heap) && 1 <= c < NUM_SIZE_CLASSES && l.Valid() && l.items == lists[c].items
      modifies this`lists
      ensures Ready(xfer, central, heap) && lists == old(lists)[c := l]
    {
      hide Fine, SpanList.Valid, OutOf, CoupledOn, CentralFreeList.Valid, CentralFreeList.Coherent, CentralFreeList.Linked;
      hide PageHeap.Valid, HeapViews.Good, PageHeap.Coupled, PageMaps.PageMap.Valid;
      hide CentralCache.Serves, TransferCacheArray.Stocked, TransferCacheArray.Backs, Ready, Owns, UserHeld;
      hide ClassInfo, ClassToSize;
      ReadyParts(xfer, central, heap);
      Recount(lists, c, l);
      lists := lists[c := l];
      forall d | 0 <= d < NUM_SIZE_CLASSES
        ensures Owns(d, lists[d].items, xfer, central) && held[d] == UserHeld(d, lists[d].items, xfer, central)
      {
        var items := lists[d].items;
        assert items == old(lists[d].items);
        assert unchanged(xfer, xfer.caches[d], xfer.caches[d].slots, central.Get(d), central.Get(d).nonempty);
        assert old(Owns(d, items, xfer, central) && held[d] == UserHeld(d, items, xfer, central));
      }
      ReadyFrom(xfer, central, heap);
    }

    /**
     * release_to_central: a batch's worth of objects (or the whole list if
     * shorter) goes from the front of the list to the transfer cache, and
     * the list's bound adapts. An empty list is left alone.
     */
    method ReleaseToCentral(c: nat, xfer: TransferCacheArray, central: CentralCache, heap: PageHeap)
      requires Ready(xfer, central, heap) && 1 <= c < NUM_SIZE_CLASSES
      modifies this`lists, this`totalSize, xfer.caches[c], xfer.caches[c].slots, central.Get(c), central.Get(c).nonempty, central.Get(c).spans
      modifies heap, heap.pm, heap.pm.root, heap.slab, heap.free
      ensures Ready(xfer, central, heap) && heap.free <= old(heap.free) + central.Repr && lists == old(lists)[c := lists[c]]
      ensures old(lists[c].items) == [] ==> lists == old(lists) && totalSize == old(totalSize)
      ensures old(lists[c].items) != [] ==> lists[c].items == old(lists[c].items)[Min(Batch(c), |old(lists[c].items)|)..]
      ensures old(lists[c].items) != [] ==> totalSize == old(totalSize) - Share(c, Min(Batch(c), |old(lists[c].items)|))
      ensures old(lists[c].items) != [] ==>
        Bound(lists[c].maxLength, lists[c].overages) == ReleaseAdjust(Bound(old(lists[c].maxLength), old(lists[c].overages)), Batch(c))
      ensures lists[c].lowWater == old(lists[c].lowWater)
    {
      hide Fine, SpanList.Valid, OutOf, CoupledOn, CentralFreeList.Valid, CentralFreeList.Coherent, CentralFreeList.Linked;
      hide PageHeap.Valid, HeapViews.Good, PageHeap.Coupled, PageMaps.PageMap.Valid;
      hide CentralCache.Serves, TransferCacheArray.Stocked, TransferCacheArray.Backs, Ready, Owns, UserHeld, Valid;
      hide ClassInfo, ClassToSize;
      ReadyParts(xfer, central, heap);
      ListOk(c);
      var toRelease := Min(Batch(c), lists[c].length);
      if toRelease == 0 {
        return;
      }
      var n := Shed(c, toRelease, xfer, central, heap);
      ReadyParts(xfer, central, heap);
      ListOk(c);
      Retune(c, lists[c].Adjusted(Batch(c)), xfer, central, heap);
    }

    /** pop on the list of class c, with the bytes of the object taken no longer counted. */
    method TakeOne(c: nat) returns (obj: Option<nat>)
      requires Valid() && 1 <= c < NUM_SIZE_CLASSES
      modifies this`lists, this`totalSize
      ensures Valid() && lists == old(lists)[c := lists[c]] && (lists[c], obj) == old(lists[c]).Pop()
      ensures obj.None? ==> totalSize == old(totalSize)
      ensures obj.Some? ==> totalSize == old(totalSize) - Share(c, 1)
    {
      hide ClassInfo, ClassToSize;
      var r := lists[c].Pop();
      if r.1.Some? {
        Recount(lists, c, r.0);
        ShareAdd(c, r.0.length, 1);
        totalSize := totalSize - ClassToSize(c);
        lists := lists[c := r.0];
      }
      obj := r.1;
    }

    /** push on the list of class c, with the bytes of the object counted. */
    method PutOne(c: nat, obj: nat)
      requires Valid() && 1 <= c < NUM_SIZE_CLASSES
      modifies this`lists, this`totalSize
      ensures Valid() && lists == old(lists)[c := old(lists[c]).Push(obj)] && totalSize == old(totalSize) + Share(c, 1)
    {
      hide ClassInfo, ClassToSize;
      var pushed := lists[c].Push(obj);
      Recount(lists, c, pushed);
      ShareAdd(c, lists[c].length, 1);
      totalSize := totalSize + ClassToSize(c);
      lists := lists[c := pushed];
    }

    /** The fast path of allocate: the head of the list of class c, if any, goes to the caller. */
    method PopCached(c: nat, xfer: TransferCacheArray, central: CentralCache, heap: PageHeap) returns (obj: Option<nat>)
      requires Ready(xfer, central, heap) && 1 <= c < NUM_SIZE_CLASSES
      modifies this`lists, this`totalSize, this`held
      ensures Ready(xfer, central, heap) && lists == old(lists)[c := lists[c]] && (lists[c], obj) == old(lists[c]).Pop()
      ensures obj.None? ==> totalSize == old(totalSize) && held == old(held)
      ensures obj.Some? ==> totalSize == old(totalSize) - Share(c, 1)
      ensures obj.Some? ==> obj.value !in old(held[c]) && held == old(held)[c := old(held[c]) + {obj.value}]
    {
      hide Fine, SpanList.Valid, OutOf, CoupledOn, CentralFreeList.Valid, CentralFreeList.Coherent, CentralFreeList.Linked;
      hide PageHeap.Valid, HeapViews.Good, PageHeap.Coupled, PageMaps.PageMap.Valid;
      hide CentralCache.Serves, TransferCacheArray.Stocked, TransferCacheArray.Backs, Ready, Owns, UserHeld, Valid;
      hide ClassInfo, ClassToSize;
      ReadyParts(xfer, central, heap);
      ghost var items0 := lists[c].items;
      OwnsParts(c, items0, xfer, central);
      HeldIs(c, items0, xfer, central);
      if items0 != [] {
        PopAccount(central.Get(c).Out(), Elems(xfer.Stock(c)), items0);
      }
      obj := TakeOne(c);
      if obj.Some? {
        held := held[c := held[c] + {obj.value}];
      }
      OwnsFrom(c, lists[c].items, xfer, central);
      HeldIs(c, lists[c].items, xfer, central);
      forall d | 0 <= d < NUM_SIZE_CLASSES && d != c
        ensures Owns(d, lists[d].items, xfer, central) && held[d] == UserHeld(d, lists[d].items, xfer, central)
      {
        assert lists[d] == old(lists[d]) && held[d] == old(held[d]);
        assert unchanged(xfer, xfer.caches[d], xfer.caches[d].slots, central.Get(d), central.Get(d).nonempty);
        assert old(Owns(d, lists[d].items, xfer, central) && held[d] == UserHeld(d, lists[d].items, xfer, central));
      }
      ReadyFrom(xfer, central, heap);
    }

    /** The first step of deallocate: an object the caller holds goes to the front of the list of class c. */
    method PushFreed(c: nat, obj: nat, xfer: TransferCacheArray, central: CentralCache, heap: PageHeap)
      requires Ready(xfer, central, heap) && 1 <= c < NUM_SIZE_CLASSES && obj in held[c]
      modifies this`lists, this`totalSize, this`held
      ensures Ready(xfer, central, heap) && lists == old(lists)[c := old(lists[c]).Push(obj)] && totalSize == old(totalSize) + Share(c, 1)
      ensures held == old(held)[c := old(held[c]) - {obj}]
    {
      hide Fine, SpanList.Valid, OutOf, CoupledOn, CentralFreeList.Valid, CentralFreeList.Coherent, CentralFreeList.Linked;
      hide PageHeap.Valid, HeapViews.Good, PageHeap.Coupled, PageMaps.PageMap.Valid;
      hide CentralCache.Serves, TransferCacheArray.Stocked, TransferCacheArray.Backs, Ready, Owns, UserHeld, Valid;
      hide ClassInfo, ClassToSize;
      ReadyParts(xfer, central, heap);
      ghost var items0 := lists[c].items;
      OwnsParts(c, items0, xfer, central);
      HeldIs(c, items0, xfer, central);
      PushAccount(central.Get(c).Out(), Elems(xfer.Stock(c)), items0, obj);
      PutOne(c, obj);
      held := held[c := held[c] - {obj}];
      OwnsFrom(c, lists[c].items, xfer, central);
      HeldIs(c, lists[c].items, xfer, central);
      forall d | 0 <= d < NUM_SIZE_CLASSES && d != c
        ensures Owns(d, lists[d].items, xfer, central) && held[d] == UserHeld(d, lists[d].items, xfer, central)
      {
        assert lists[d] == old(lists[d]) && held[d] == old(held[d]);
        assert unchanged(xfer, xfer.caches[d], xfer.caches[d].slots, central.Get(d), central.Get(d).nonempty);
        assert old(Owns(d, lists[d].items, xfer, central) && held[d] == UserHeld(d, lists[d].items, xfer, central));
      }
      ReadyFrom(xfer, central, heap);
    }

    /**
     * allocate: the head of the list of class c when there is one (its
     * bytes no longer counted); otherwise fetch_from_central. Either way an
     * object comes out only if the caller did not hold it, and then the
     * caller holds it.
     */
    method Allocate(c: nat, xfer: TransferCacheArray, central: CentralCache, heap: PageHeap) returns (obj: Option<nat>, ghost got: seq<nat>)
      requires Ready(xfer, central, heap) && 1 <= c < NUM_SIZE_CLASSES
      modifies this`lists, this`totalSize, this`held, xfer.caches[c], central, central.Get(c), central.Get(c).nonempty, central.Get(c).spans
      modifies heap, heap.pm, heap.pm.root, heap.slab, heap.os, heap.slab.freeList, heap.free
      ensures Ready(xfer, central, heap) && lists == old(lists)[c := lists[c]]
      ensures old(lists[c].items) != [] ==> obj == Some(old(lists[c].items)[0]) && lists[c] == old(lists[c]).Pop().0
      ensures old(lists[c].items) != [] ==> totalSize == old(totalSize) - Share(c, 1)
      ensures old(lists[c].items) == [] && obj.Some? ==> lists[c].maxLength == FetchGrowth(old(lists[c].maxLength), Batch(c)) && lists[c].overages == 0
      ensures old(lists[c].items) == [] ==> (got == [] <==> obj.None?)
      ensures old(lists[c].items) == [] ==> |got| <= NumToMove(old(lists[c].maxLength), Batch(c)) || |got| == Batch(c)
      ensures old(lists[c].items) == [] && got != [] ==> obj == Some(got[0]) && lists[c].items == got[1..]
      ensures old(lists[c].items) == [] && got != [] ==> totalSize == old(totalSize) + Share(c, |got| - 1)
      ensures old(lists[c].items) == [] ==> lists[c].lowWater == old(lists[c].lowWater)
      ensures obj.None? ==> old(lists[c].items) == [] && lists == old(lists)
      ensures obj.Some? ==> obj.value !in old(held[c]) && held == old(held)[c := old(held[c]) + {obj.value}]
      ensures obj.None? ==> held == old(held)
    {
      hide Fine, SpanList.Valid, OutOf, CoupledOn, CentralFreeList.Valid, CentralFreeList.Coherent, CentralFreeList.Linked;
      hide PageHeap.Valid, HeapViews.Good, PageHeap.Coupled, PageMaps.PageMap.Valid;
      hide CentralCache.Serves, TransferCacheArray.Stocked, TransferCacheArray.Backs, Ready, Owns, UserHeld, Valid;
      hide ClassInfo, ClassToSize;
      ReadyParts(xfer, central, heap);
      ListOk(c);
      got := [];
      obj := PopCached(c, xfer, central, heap);
      if obj.Some? {
        return;
      }
      ReadyParts(xfer, central, heap);
      obj, got := FetchFromCentral(c, xfer, central, heap);
    }

    /**
     * scavenge's pass over the list of class c: with a positive low-water
     * mark, half of it (at least one) goes back to the transfer cache; then
     * the bound shrinks and a new low-water epoch starts.
     */
    method ScavengeClass(c: nat, xfer: TransferCacheArray, central: CentralCache, heap: PageHeap)
      requires Ready(xfer, central, heap) && 1 <= c < NUM_SIZE_CLASSES
      modifies this`lists, this`totalSize, xfer.caches[c], xfer.caches[c].slots, central.Get(c), central.Get(c).nonempty, central.Get(c).spans
      modifies heap, heap.pm, heap.pm.root, heap.slab, heap.free
      ensures Ready(xfer, central, heap) && heap.free <= old(heap.free) + central.Repr
      ensures old(lists[c].Valid()) && lists == old(lists)[c := Scavenged(old(lists[c]), Batch(c))]
      ensures totalSize == old(totalSize) - Share(c, |old(lists[c].items)| - |lists[c].items|)
    {
      hide Fine, SpanList.Valid, OutOf, CoupledOn, CentralFreeList.Valid, CentralFreeList.Coherent, CentralFreeList.Linked;
      hide PageHeap.Valid, HeapViews.Good, PageHeap.Coupled, PageMaps.PageMap.Valid;
      hide CentralCache.Serves, TransferCacheArray.Stocked, TransferCacheArray.Backs, Ready, Owns, UserHeld, Valid;
      hide ClassInfo, ClassToSize;
      ReadyParts(xfer, central, heap);
      ListOk(c);
      var lwm := lists[c].lowWater;
      if lwm > 0 {
        var toRelease := if lwm > 1 then lwm / 2 else 1;
        var n := Shed(c, toRelease, xfer, central, heap);
        ReadyParts(xfer, central, heap);
        ListOk(c);
      }
      Retune(c, lists[c].Shrunk(Batch(c)), xfer, central, heap);
    }

    /** scavenge's loop: each class's list, from class 1 up, in turn. */
    method ScavengeLists(xfer: TransferCacheArray, central: CentralCache, heap: PageHeap)
      requires Ready(xfer, central, heap)
      modifies this`lists, this`totalSize, xfer.caches, xfer.slotArrays, central.lists, central.fronts, central.Repr
      modifies heap, heap.pm, heap.pm.root, heap.slab, heap.free
      ensures Ready(xfer, central, heap) && heap.free <= old(heap.free) + central.Repr
      ensures |lists| == |old(lists)| == NUM_SIZE_CLASSES && lists[0] == old(lists[0])
      ensures forall d :: 1 <= d < NUM_SIZE_CLASSES ==> old(lists[d].Valid()) && lists[d] == Scavenged(old(lists[d]), Batch(d))
    {
      hide Fine, SpanList.Valid, OutOf, CoupledOn, CentralFreeList.Valid, CentralFreeList.Coherent, CentralFreeList.Linked;
      hide PageHeap.Valid, HeapViews.Good, PageHeap.Coupled, PageMaps.PageMap.Valid;
      hide CentralCache.Serves, TransferCacheArray.Stocked, TransferCacheArray.Backs, Ready, Owns, UserHeld, Valid;
      hide ClassInfo, ClassToSize, Batch, Scavenged;
      ReadyParts(xfer, central, heap);
      ListsOk();
      ghost var before := lists;
      var c := 1;
      while c < NUM_SIZE_CLASSES
        invariant 1 <= c <= NUM_SIZE_CLASSES && Ready(xfer, central, heap) && heap.free <= old(heap.free) + central.Repr
        invariant lists == ScavengedBelow(before, c)
      {
        Footprint(c, xfer, central, heap);
        ScavengeNext(c, before, xfer, central, heap);
        c := c + 1;
      }
    }

    /** One pass of scavenge's loop: the lists of classes below c already scavenged, class c is next. */
    method ScavengeNext(c: nat, ghost before: seq<FreeList>, xfer: TransferCacheArray, central: CentralCache, heap: PageHeap)
      requires Ready(xfer, central, heap) && 1 <= c < NUM_SIZE_CLASSES
      requires |before| == NUM_SIZE_CLASSES && (forall d :: 0 <= d < NUM_SIZE_CLASSES ==> before[d].Valid()) && lists == ScavengedBelow(before, c)
      modifies this`lists, this`totalSize, xfer.caches[c], xfer.caches[c].slots, central.Get(c), central.Get(c).nonempty, central.Get(c).spans
      modifies heap, heap.pm, heap.pm.root, heap.slab, heap.free
      ensures Ready(xfer, central, heap) && heap.free <= old(heap.free) + central.Repr && lists == ScavengedBelow(before, c + 1)
    {
      hide Fine, SpanList.Valid, OutOf, CoupledOn, CentralFreeList.Valid, CentralFreeList.Coherent, CentralFreeList.Linked;
      hide PageHeap.Valid, HeapViews.Good, PageHeap.Coupled, PageMaps.PageMap.Valid;
      hide CentralCache.Serves, TransferCacheArray.Stocked, TransferCacheArray.Backs, Ready, Owns, UserHeld, Valid;
      hide ClassInfo, ClassToSize, Batch, Scavenged;
      ScavengeStep(before, c);
      ScavengeClass(c, xfer, central, heap);
    }

    /**
     * scavenge: every class's list gives back half of what sat unused since
     * the last pass and has its bound and low-water mark reset; then the
     * thread tries to grow its budget. The caller's objects are the same.
     */
    method Scavenge(budget: Budget, xfer: TransferCacheArray, central: CentralCache, heap: PageHeap)
      requires Ready(xfer, central, heap)
      modifies this`lists, this`totalSize, this`maxSize, xfer.caches, xfer.slotArrays, central.lists, central.fronts, central.Repr
      modifies heap, heap.pm, heap.pm.root, heap.slab, heap.free, budget
      ensures Ready(xfer, central, heap) && heap.free <= old(heap.free) + central.Repr
      ensures |lists| == |old(lists)| == NUM_SIZE_CLASSES && lists[0] == old(lists[0])
      ensures forall d :: 1 <= d < NUM_SIZE_CLASSES ==> old(lists[d].Valid()) && lists[d] == Scavenged(old(lists[d]), Batch(d))
      ensures old(budget.unclaimed) < STEAL_AMOUNT ==> maxSize == old(maxSize) && budget.unclaimed == old(budget.unclaimed)
      ensures old(budget.unclaimed) >= STEAL_AMOUNT ==> maxSize == old(maxSize) + STEAL_AMOUNT && budget.unclaimed == old(budget.unclaimed) - STEAL_AMOUNT
    {
      hide Fine, SpanList.Valid, OutOf, CoupledOn, CentralFreeList.Valid, CentralFreeList.Coherent, CentralFreeList.Linked;
      hide PageHeap.Valid, HeapViews.Good, PageHeap.Coupled, PageMaps.PageMap.Valid;
      hide CentralCache.Serves, TransferCacheArray.Stocked, TransferCacheArray.Backs, Ready, Owns, UserHeld, Valid;
      hide ClassInfo, ClassToSize, Batch, Scavenged;
      ScavengeLists(xfer, central, heap);
      IncreaseCacheLimit(budget);
    }

    /** flush_and_destroy's step for class c: a non-empty list goes back to the transfer cache whole. */
    method FlushClass(c: nat, xfer: TransferCacheArray, central: CentralCache, heap: PageHeap)
      requires Ready(xfer, central, heap) && 1 <= c < NUM_SIZE_CLASSES
      modifies this`lists, this`totalSize, xfer.caches[c], xfer.caches[c].slots, central.Get(c), central.Get(c).nonempty, central.Get(c).spans
      modifies heap, heap.pm, heap.pm.root, heap.slab, heap.free
      ensures Ready(xfer, central, heap) && heap.free <= old(heap.free) + central.Repr
      ensures lists == old(lists)[c := lists[c]] && lists[c].items == []
    {
      hide Fine, SpanList.Valid, OutOf, CoupledOn, CentralFreeList.Valid, CentralFreeList.Coherent, CentralFreeList.Linked;
      hide PageHeap.Valid, HeapViews.Good, PageHeap.Coupled, PageMaps.PageMap.Valid;
      hide CentralCache.Serves, TransferCacheArray.Stocked, TransferCacheArray.Backs, Ready, Owns, UserHeld, Valid;
      hide ClassInfo, ClassToSize;
      ReadyParts(xfer, central, heap);
      ListOk(c);
      if lists[c].length > 0 {
        var n := Shed(c, lists[c].length, xfer, central, heap);
      }
    }

    /** flush_and_destroy's loop: each class's list, from class 1 up, goes back whole. */
    method FlushLists(xfer: TransferCacheArray, central: CentralCache, heap: PageHeap)
      requires Ready(xfer, central, heap)
      modifies this`lists, this`totalSize, xfer.caches, xfer.slotArrays, central.lists, central.fronts, central.Repr
      modifies heap, heap.pm, heap.pm.root, heap.slab, heap.free
      ensures Ready(xfer, central, heap) && heap.free <= old(heap.free) + central.Repr
      ensures |lists| == NUM_SIZE_CLASSES && forall d :: 0 <= d < NUM_SIZE_CLASSES ==> lists[d].items == []
    {
      hide Fine, SpanList.Valid, OutOf, CoupledOn, CentralFreeList.Valid, CentralFreeList.Coherent, CentralFreeList.Linked;
      hide PageHeap.Valid, HeapViews.Good, PageHeap.Coupled, PageMaps.PageMap.Valid;
      hide CentralCache.Serves, TransferCacheArray.Stocked, TransferCacheArray.Backs, Ready, Owns, UserHeld, Valid;
      hide ClassInfo, ClassToSize;
      ReadyParts(xfer, central, heap);
      ListOk(0);
      var c := 1;
      while c < NUM_SIZE_CLASSES
        invariant 1 <= c <= NUM_SIZE_CLASSES && Ready(xfer, central, heap) && heap.free <= old(heap.free) + central.Repr
        invariant |lists| == NUM_SIZE_CLASSES && forall d :: 0 <= d < c ==> lists[d].items == []
      {
        Footprint(c, xfer, central, heap);
        FlushClass(c, xfer, central, heap);
        c := c + 1;
      }
    }

    /**
     * flush_and_destroy: every list goes back to the transfer cache whole,
     * and the thread's budget returns to the shared pool. The caller's
     * objects are the same.
     */
    method FlushAndDestroy(budget: Budget, xfer: TransferCacheArray, central: CentralCache, heap: PageHeap)
      requires Ready(xfer, central, heap)
      modifies this`lists, this`totalSize, this`maxSize, xfer.caches, xfer.slotArrays, central.lists, central.fronts, central.Repr
      modifies heap, heap.pm, heap.pm.root, heap.slab, heap.free, budget
      ensures Ready(xfer, central, heap) && heap.free <= old(heap.free) + central.Repr
      ensures |lists| == NUM_SIZE_CLASSES && forall d :: 0 <= d < NUM_SIZE_CLASSES ==> lists[d].items == []
      ensures totalSize == 0 && maxSize == 0 && budget.unclaimed == old(budget.unclaimed) + old(maxSize)
    {
      hide Fine, SpanList.Valid, OutOf, CoupledOn, CentralFreeList.Valid, CentralFreeList.Coherent, CentralFreeList.Linked;
      hide PageHeap.Valid, HeapViews.Good, PageHeap.Coupled, PageMaps.PageMap.Valid;
      hide CentralCache.Serves, TransferCacheArray.Stocked, TransferCacheArray.Backs, Ready, Owns, UserHeld, Valid;
      hide ClassInfo, ClassToSize;
      FlushLists(xfer, central, heap);
      ReadyParts(xfer, central, heap);
      NothingCached();
      ReturnBudget(budget);
    }

    /** flush_and_destroy's last step: the thread's budget goes back to the shared pool. */
    method ReturnBudget(budget: Budget)
      modifies this`maxSize, budget
      ensures maxSize == 0 && budget.unclaimed == old(budget.unclaimed) + old(maxSize)
    {
      if maxSize > 0 {
        budget.unclaimed := budget.unclaimed + maxSize;
        maxSize := 0;
      }
    }

    /** The first check of deallocate's tail: a list longer than its bound releases a batch (release_to_central). */
    method ReleaseIfLong(c: nat, xfer: TransferCacheArray, central: CentralCache, heap: PageHeap)
      requires Ready(xfer, central, heap) && 1 <= c < NUM_SIZE_CLASSES
      modifies this`lists, this`totalSize, xfer.caches, xfer.slotArrays, central.lists, central.fronts, central.Repr
      modifies heap, heap.pm, heap.pm.root, heap.slab, heap.free
      ensures Ready(xfer, central, heap) && heap.free <= old(heap.free) + central.Repr
      ensures old(lists[c].Valid())
      ensures old(|lists[c].items| > lists[c].maxLength) ==>
        lists == old(lists)[c := old(lists[c]).Released(Batch(c))] && totalSize == old(totalSize) - Share(c, Min(Batch(c), old(|lists[c].items|)))
      ensures old(|lists[c].items| <= lists[c].maxLength) ==> lists == old(lists) && totalSize == old(totalSize)
    {
      hide Fine, SpanList.Valid, OutOf, CoupledOn, CentralFreeList.Valid, CentralFreeList.Coherent, CentralFreeList.Linked;
      hide PageHeap.Valid, HeapViews.Good, PageHeap.Coupled, PageMaps.PageMap.Valid;
      hide CentralCache.Serves, TransferCacheArray.Stocked, TransferCacheArray.Backs, Ready, Owns, UserHeld, Valid;
      hide ClassInfo, ClassToSize, Scavenged, Batch, FreeList.Released;
      ReadyParts(xfer, central, heap);
      ListOk(c);
      ghost var l0 := lists[c];
      if lists[c].length > lists[c].maxLength {
        Footprint(c, xfer, central, heap);
        ReleaseToCentral(c, xfer, central, heap);
        ReadyParts(xfer, central, heap);
        ListOk(c);
        ReleasedIs(l0, lists[c], Batch(c));
      }
    }

    /**
     * The rest of deallocate once the object is on its list: a list over its
     * bound releases a batch, and then a cache over its budget scavenges.
     * Within both bounds nothing changes; budget only moves between the
     * thread and the shared pool.
     */
    method Rebalance(c: nat, budget: Budget, xfer: TransferCacheArray, central: CentralCache, heap: PageHeap)
      returns (ghost mid: seq<FreeList>, ghost midSize: nat)
      requires Ready(xfer, central, heap) && 1 <= c < NUM_SIZE_CLASSES
      modifies this`lists, this`totalSize, this`maxSize, xfer.caches, xfer.slotArrays, central.lists, central.fronts, central.Repr
      modifies heap, heap.pm, heap.pm.root, heap.slab, heap.free, budget
      ensures Ready(xfer, central, heap) && heap.free <= old(heap.free) + central.Repr
      ensures budget.unclaimed + maxSize == old(budget.unclaimed) + old(maxSize)
      ensures old(|lists[c].items| <= lists[c].maxLength && totalSize <= maxSize) ==>
        lists == old(lists) && totalSize == old(totalSize) && maxSize == old(maxSize)
      ensures old(lists[c].Valid())
      ensures old(|lists[c].items| > lists[c].maxLength) ==>
        mid == old(lists)[c := old(lists[c]).Released(Batch(c))] && midSize == old(totalSize) - Share(c, Min(Batch(c), old(|lists[c].items|)))
      ensures old(|lists[c].items| <= lists[c].maxLength) ==> mid == old(lists) && midSize == old(totalSize)
      ensures |mid| == NUM_SIZE_CLASSES && forall d :: 0 <= d < NUM_SIZE_CLASSES ==> mid[d].Valid()
      ensures midSize <= old(maxSize) ==> lists == mid && totalSize == midSize && maxSize == old(maxSize)
      ensures midSize > old(maxSize) ==> |lists| == NUM_SIZE_CLASSES && lists[0] == mid[0]
      ensures midSize > old(maxSize) ==> forall d :: 1 <= d < NUM_SIZE_CLASSES ==> lists[d] == Scavenged(mid[d], Batch(d))
      ensures midSize > old(maxSize) ==> maxSize == old(maxSize) + if old(budget.unclaimed) >= STEAL_AMOUNT then STEAL_AMOUNT else 0
    {
      hide Fine, SpanList.Valid, OutOf, CoupledOn, CentralFreeList.Valid, CentralFreeList.Coherent, CentralFreeList.Linked;
      hide PageHeap.Valid, HeapViews.Good, PageHeap.Coupled, PageMaps.PageMap.Valid;
      hide CentralCache.Serves, TransferCacheArray.Stocked, TransferCacheArray.Backs, Ready, Owns, UserHeld, Valid;
      hide ClassInfo, ClassToSize, Scavenged, Batch, FreeList.Released;
      ReleaseIfLong(c, xfer, central, heap);
      ReadyParts(xfer, central, heap);
      ListsOk();
      mid, midSize := lists, totalSize;
      ScavengeIfOver(budget, xfer, central, heap);
    }

    /** The second check of deallocate's tail: a cache over its budget scavenges. */
    method ScavengeIfOver(budget: Budget, xfer: TransferCacheArray, central: CentralCache, heap: PageHeap)
      requires Ready(xfer, central, heap)
      modifies this`lists, this`totalSize, this`maxSize, xfer.caches, xfer.slotArrays, central.lists, central.fronts, central.Repr
      modifies heap, heap.pm, heap.pm.root, heap.slab, heap.free, budget
      ensures Ready(xfer, central, heap) && heap.free <= old(heap.free) + central.Repr
      ensures budget.unclaimed + maxSize == old(budget.unclaimed) + old(maxSize)
      ensures old(totalSize) <= old(maxSize) ==> lists == old(lists) && totalSize == old(totalSize) && maxSize == old(maxSize)
      ensures old(totalSize) > old(maxSize) ==> |lists| == |old(lists)| == NUM_SIZE_CLASSES && lists[0] == old(lists[0])
      ensures old(totalSize) > old(maxSize) ==> forall d :: 1 <= d < NUM_SIZE_CLASSES ==> old(lists[d].Valid()) && lists[d] == Scavenged(old(lists[d]), Batch(d))
      ensures old(totalSize) > old(maxSize) ==> maxSize == old(maxSize) + if old(budget.unclaimed) >= STEAL_AMOUNT then STEAL_AMOUNT else 0
    {
      hide Fine, SpanList.Valid, OutOf, CoupledOn, CentralFreeList.Valid, CentralFreeList.Coherent, CentralFreeList.Linked;
      hide PageHeap.Valid, HeapViews.Good, PageHeap.Coupled, PageMaps.PageMap.Valid;
      hide CentralCache.Serves, TransferCacheArray.Stocked, TransferCacheArray.Backs, Ready, Owns, UserHeld, Valid;
      hide ClassInfo, ClassToSize, Scavenged, Batch;
      if totalSize > maxSize {
        Scavenge(budget, xfer, central, heap);
      }
    }

    /**
     * deallocate: an object the caller holds goes to the front of the list
     * of its class; a list over its bound then releases a batch, and a cache
     * over its budget then scavenges. The caller holds exactly that object
     * less, and budget only moves between the thread and the shared pool.
     */
    method Deallocate(obj: nat, c: nat, budget: Budget, xfer: TransferCacheArray, central: CentralCache, heap: PageHeap)
      returns (ghost mid: seq<FreeList>, ghost midSize: nat)
      requires Ready(xfer, central, heap) && 1 <= c < NUM_SIZE_CLASSES && obj in held[c]
      modifies this`lists, this`totalSize, this`maxSize, this`held, xfer.caches, xfer.slotArrays, central.lists, central.fronts, central.Repr
      modifies heap, heap.pm, heap.pm.root, heap.slab, heap.free, budget
      ensures Ready(xfer, central, heap) && heap.free <= old(heap.free) + central.Repr
      ensures held == old(held)[c := old(held[c]) - {obj}]
      ensures budget.unclaimed + maxSize == old(budget.unclaimed) + old(maxSize)
      ensures |old(lists[c].items)| < old(lists[c].maxLength) && old(totalSize) + Share(c, 1) <= old(maxSize) ==>
        lists == old(lists)[c := old(lists[c]).Push(obj)] && totalSize == old(totalSize) + Share(c, 1) && maxSize == old(maxSize)
      ensures old(lists[c].Valid())
      ensures |old(lists[c].items)| >= old(lists[c].maxLength) ==>
        mid == old(lists)[c := old(lists[c]).Push(obj).Released(Batch(c))]
        && midSize == old(totalSize) + Share(c, 1) - Share(c, Min(Batch(c), |old(lists[c].items)| + 1))
      ensures |old(lists[c].items)| < old(lists[c].maxLength) ==>
        mid == old(lists)[c := old(lists[c]).Push(obj)] && midSize == old(totalSize) + Share(c, 1)
      ensures |mid| == NUM_SIZE_CLASSES && forall d :: 0 <= d < NUM_SIZE_CLASSES ==> mid[d].Valid()
      ensures midSize <= old(maxSize) ==> lists == mid && totalSize == midSize && maxSize == old(maxSize)
      ensures midSize > old(maxSize) ==> |lists| == NUM_SIZE_CLASSES && lists[0] == mid[0]
      ensures midSize > old(maxSize) ==> forall d :: 1 <= d < NUM_SIZE_CLASSES ==> lists[d] == Scavenged(mid[d], Batch(d))
      ensures midSize > old(maxSize) ==> maxSize == old(maxSize) + if old(budget.unclaimed) >= STEAL_AMOUNT then STEAL_AMOUNT else 0
    {
      hide Fine, SpanList.Valid, OutOf, CoupledOn, CentralFreeList.Valid, CentralFreeList.Coherent, CentralFreeList.Linked;
      hide PageHeap.Valid, HeapViews.Good, PageHeap.Coupled, PageMaps.PageMap.Valid;
      hide CentralCache.Serves, TransferCacheArray.Stocked, TransferCacheArray.Backs, Ready, Owns, UserHeld, Valid;
      hide ClassInfo, ClassToSize, Scavenged, Batch;
      ReadyParts(xfer, central, heap);
      ListOk(c);
      PushFreed(c, obj, xfer, central, heap);
      assert |lists[c].items| == |old(lists[c].items)| + 1 && lists[c].maxLength == old(lists[c].maxLength);
      mid, midSize := Rebalance(c, budget, xfer, central, heap);
    }
  }
}
