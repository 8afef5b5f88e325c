/**
 * The transfer cache: for each size class a bounded LIFO stack of whole
 * batches (chains of exactly batch_size objects) that thread caches hand to
 * each other without going through the central free list. A chain, kept in
 * the source as its (head, tail) pair, is modelled as the sequence of its
 * objects, head first.
 */
module TransferCaches {
  import opened Config
  import opened Wrappers
  import opened SizeClass
  import opened Spans
  import opened PageHeaps
  import opened CentralViews
  import opened CentralFreeLists
  import HeapViews
  import PageMaps

  /** A stack of batches, bottom first. */
  type Stack = seq<seq<nat>>

  /** pop, on the stack: an empty stack gives nothing and stays as it is; otherwise the top batch comes off. */
  function PopOn(s: Stack): (Stack, Option<seq<nat>>)
  {
    if s == [] then (s, None) else (s[..|s| - 1], Some(s[|s| - 1]))
  }

  /** push, on the stack: a full stack refuses and stays as it is; otherwise the batch goes on top. */
  function PushOn(s: Stack, b: seq<nat>): (Stack, bool)
  {
    if |s| >= MAX_TRANSFER_SLOTS then (s, false) else (s + [b], true)
  }

  /** The objects of a stack of batches, bottom batch first. */
  function Flat(s: Stack): seq<nat>
  {
    if s == [] then [] else s[0] + Flat(s[1..])
  }

  lemma {:induction false} FlatSnoc(s: Stack, b: seq<nat>)
    ensures Flat(s + [b]) == Flat(s) + b
  {
    if s == [] {
      assert Flat([b]) == b + Flat([]);
    } else {
      assert (s + [b])[1..] == s[1..] + [b];
      FlatSnoc(s[1..], b);
    }
  }

  /** LIFO: a successful push is undone by the next pop, which gives back the batch pushed. */
  lemma PopAfterPush(s: Stack, b: seq<nat>)
    requires PushOn(s, b).1
    ensures PopOn(PushOn(s, b).0) == (s, Some(b))
  {
    assert (s + [b])[..|s|] == s;
  }

  /** push fails exactly when all slots are used; the stack never grows past them. */
  lemma PushBounded(s: Stack, b: seq<nat>)
    requires |s| <= MAX_TRANSFER_SLOTS
    ensures !PushOn(s, b).1 <==> |s| == MAX_TRANSFER_SLOTS
    ensures |PushOn(s, b).0| <= MAX_TRANSFER_SLOTS
  {
  }

  /** Neither push nor pop loses or invents an object: what comes off plus what stays is what was there. */
  lemma {:induction false} ObjectsKept(s: Stack, b: seq<nat>)
    ensures Flat(PushOn(s, b).0) == if PushOn(s, b).1 then Flat(s) + b else Flat(s)
    ensures PopOn(s).1.Some? ==> Flat(s) == Flat(PopOn(s).0) + PopOn(s).1.value
  {
    FlatSnoc(s, b);
    if s != [] {
      assert s == s[..|s| - 1] + [s[|s| - 1]];
      FlatSnoc(s[..|s| - 1], s[|s| - 1]);
    }
  }

  /** The two halves of a sequence without repeats have none, and no object in common. */
  lemma NoDupSplit(xs: seq<nat>, ys: seq<nat>)
    requires NoDup(xs + ys)
    ensures NoDup(xs) && NoDup(ys) && Elems(xs) !! Elems(ys)
  {
    var zs := xs + ys;
    forall i, j | 0 <= i < j < |xs|
      ensures xs[i] != xs[j]
    {
      assert xs[i] == zs[i] && xs[j] == zs[j];
    }
    forall i, j | 0 <= i < j < |ys|
      ensures ys[i] != ys[j]
    {
      assert ys[i] == zs[|xs| + i] && ys[j] == zs[|xs| + j];
    }
    forall i, j | 0 <= i < |xs| && 0 <= j < |ys|
      ensures xs[i] != ys[j]
    {
      assert xs[i] == zs[i] && ys[j] == zs[|xs| + j];
    }
  }

  /** The transfer cache of one class: a fixed array of slots of which the first `used` hold batches. */
  class TransferCache {
    const slots: array<seq<nat>>
    var used: nat

    ghost predicate Valid()
      reads this
    {
      slots.Length == MAX_TRANSFER_SLOTS && used <= MAX_TRANSFER_SLOTS
    }

    /** The batches held, bottom first. */
    ghost function Stack(): Stack
      reads this, slots
      requires Valid()
    {
      slots[..used]
    }

    /** new: every slot empty. */
    constructor ()
      ensures Valid() && Stack() == [] && fresh(slots)
    {
      slots := new seq<nat>[MAX_TRANSFER_SLOTS](_ => []);
      used := 0;
    }

    /** pop: None on an empty stack, which is left alone; otherwise the top batch, removed. */
    method Pop() returns (r: Option<seq<nat>>)
      requires Valid()
      modifies this
      ensures Valid() && (Stack(), r) == PopOn(old(Stack()))
    {
      if used == 0 {
        return None;
      }
      used := used - 1;
      r := Some(slots[used]);
      assert old(Stack()) == Stack() + [slots[used]];
    }

    /** push: false on a full stack, which is left alone; otherwise the batch goes on top. */
    method Push(b: seq<nat>) returns (ok: bool)
      requires Valid()
      modifies this, slots
      ensures Valid() && (Stack(), ok) == PushOn(old(Stack()), b)
    {
      if used >= MAX_TRANSFER_SLOTS {
        return false;
      }
      slots[used] := b;
      used := used + 1;
      ok := true;
      assert Stack() == old(Stack()) + [b];
    }
  }

  /** One transfer cache per size class, each behind its own lock in the allocator. */
  class TransferCacheArray {
    const caches: seq<TransferCache>

    /** The slot arrays of all classes. */
    ghost const slotArrays: set<array<seq<nat>>>

    /** A cache per class, no two sharing a cache or a slot array, every stored batch of exactly batch_size objects. */
    ghost predicate Valid()
      reads this, caches, slotArrays
    {
      && |caches| == NUM_SIZE_CLASSES
      && (forall c :: 0 <= c < |caches| ==> caches[c].Valid())
      && (forall c, d :: 0 <= c < d < |caches| ==> caches[c] != caches[d] && caches[c].slots != caches[d].slots)
      && slotArrays == (set t | t in caches :: t.slots)
      && (forall c :: 0 <= c < |caches| ==> Exact(c))
    }

    /** Every batch class c holds has exactly the class's batch size. */
    ghost predicate Exact(c: nat)
      reads this, caches[c], caches[c].slots
      requires c < |caches| <= NUM_SIZE_CLASSES && caches[c].Valid()
    {
      forall b :: b in caches[c].Stack() ==> |b| == ClassInfo(c).batchSize
    }

    /** The objects class c holds, bottom batch first. */
    ghost function Stock(c: nat): seq<nat>
      reads this, caches[c], caches[c].slots
      requires c < |caches| && caches[c].Valid()
    {
      Flat(caches[c].Stack())
    }

    /**
     * The cache of class c holds each object at most once, and every object
     * it holds is out of the central free list of the class: the central
     * list counts it as handed out, not free.
     */
    ghost predicate Backs(c: nat, central: CentralCache)
      reads this, caches[c], caches[c].slots, central.Get(c), central.Get(c).nonempty
      requires c < |caches| && caches[c].Valid() && central.Valid() && c < NUM_SIZE_CLASSES
    {
      NoDup(Stock(c)) && Elems(Stock(c)) <= central.Get(c).Out()
    }

    /** Backs holds for every class. */
    ghost predicate Stocked(central: CentralCache)
      reads this, caches, slotArrays, central.lists, central.fronts
      requires Valid() && central.Valid()
    {
      forall c :: 0 <= c < NUM_SIZE_CLASSES ==> Backs(c, central)
    }

    /** Two classes never share a cache or a slot array. */
    lemma CachesApart(c: nat, d: nat)
      requires Valid() && c < NUM_SIZE_CLASSES && d < NUM_SIZE_CLASSES && c != d
      ensures caches[c] != caches[d] && caches[c].slots != caches[d].slots
    {
      if c > d {
        CachesApart(d, c);
      }
    }

    lemma StockedAt(c: nat, central: CentralCache)
      requires Valid() && central.Valid() && Stocked(central) && c < NUM_SIZE_CLASSES
      ensures Backs(c, central)
    {
    }

    lemma StockedFrom(central: CentralCache)
      requires Valid() && central.Valid()
      requires forall c :: 0 <= c < NUM_SIZE_CLASSES ==> Backs(c, central)
      ensures Stocked(central)
    {
    }

    lemma BacksParts(c: nat, central: CentralCache)
      requires Valid() && central.Valid() && c < NUM_SIZE_CLASSES && Backs(c, central)
      ensures NoDup(Stock(c)) && Elems(Stock(c)) <= central.Get(c).Out()
    {
    }

    lemma BacksFrom(c: nat, central: CentralCache)
      requires Valid() && central.Valid() && c < NUM_SIZE_CLASSES
      requires NoDup(Stock(c)) && Elems(Stock(c)) <= central.Get(c).Out()
      ensures Backs(c, central)
    {
    }

    /** new: an empty cache for every class. */
    constructor ()
      ensures Valid()
      ensures forall c :: 0 <= c < NUM_SIZE_CLASSES ==> Stock(c) == []
      ensures forall central: CentralCache :: central.Valid() ==> Stocked(central)
    {
      var made: seq<TransferCache> := [];
      var i := 0;
      while i < NUM_SIZE_CLASSES
        invariant i == |made| <= NUM_SIZE_CLASSES
        invariant forall c :: 0 <= c < i ==> fresh(made[c]) && fresh(made[c].slots)
        invariant forall c :: 0 <= c < i ==> made[c].Valid() && made[c].Stack() == []
        invariant forall c, d :: 0 <= c < d < i ==> made[c] != made[d] && made[c].slots != made[d].slots
      {
        var t := new TransferCache();
        made := made + [t];
        i := i + 1;
      }
      caches := made;
      slotArrays := set t | t in made :: t.slots;
    }
      /** The lock on class c taken and pop called; the other classes are left alone. */
    method PopFrom(c: nat) returns (top: Option<seq<nat>>)
      requires Valid() && c < NUM_SIZE_CLASSES
      modifies caches[c]
      ensures Valid() && (caches[c].Stack(), top) == PopOn(old(caches[c].Stack()))
      ensures top.Some? ==> |top.value| == ClassInfo(c).batchSize
    {
      ghost var s0 := caches[c].Stack();
      assert Exact(c);
      top := caches[c].Pop();
      assert forall b :: b in caches[c].Stack() ==> b in s0;
      assert top.Some? ==> top.value in s0;
    }

    /** The lock on class c taken and push called with a batch of the class's size. */
    method PushOnto(c: nat, b: seq<nat>) returns (ok: bool)
      requires Valid() && c < NUM_SIZE_CLASSES && |b| == ClassInfo(c).batchSize
      modifies caches[c], caches[c].slots
      ensures Valid() && (caches[c].Stack(), ok) == PushOn(old(caches[c].Stack()), b)
    {
      ghost var s0 := caches[c].Stack();
      assert Exact(c);
      ok := caches[c].Push(b);
      assert caches[c].Stack() == if ok then s0 + [b] else s0;
      forall d | 0 <= d < |caches|
        ensures caches[d].Valid() && Exact(d)
      {
        if d != c {
          assert unchanged(caches[d], caches[d].slots);
          assert old(Exact(d));
        }
      }
    }

    /**
     * remove_range: a batch from the class's transfer cache when it holds
     * one, whatever count was asked for; otherwise up to count objects
     * straight from the central free list of the class.
     */
    method RemoveRange(c: nat, count: nat, central: CentralCache, heap: PageHeap) returns (n: nat, objs: seq<nat>)
      requires Valid() && central.Serves(heap) && 1 <= c < NUM_SIZE_CLASSES && Stocked(central)
      modifies caches[c], central, central.Get(c), central.Get(c).nonempty, central.Get(c).spans
      modifies heap, heap.pm, heap.pm.root, heap.slab, heap.os, heap.slab.freeList, heap.free
      ensures Valid() && central.Serves(heap) && Stocked(central)
      ensures n == |objs| && NoDup(objs) && Elems(objs) !! Elems(Stock(c)) && Elems(objs) <= central.Get(c).Out()
      ensures old(caches[c].Stack()) != [] ==> n == ClassInfo(c).batchSize
      ensures old(caches[c].Stack()) != [] ==> (caches[c].Stack(), Some(objs)) == PopOn(old(caches[c].Stack()))
      ensures old(caches[c].Stack()) != [] ==> central.Get(c).Snapshot() == old(central.Get(c).Snapshot())
      ensures old(caches[c].Stack()) == [] ==> caches[c].Stack() == [] && n <= count
      ensures old(caches[c].Stack()) == [] ==> Elems(objs) !! old(central.Get(c).Out()) && central.Get(c).Out() == old(central.Get(c).Out()) + Elems(objs)
      ensures old(caches[c].Stack()) == [] && n < count ==> central.Get(c).nonempty.Items == []
    {
      hide Fine, SpanList.Valid, OutOf, CoupledOn, CentralFreeList.Valid, CentralFreeList.Coherent, CentralFreeList.Linked;
      hide PageHeap.Valid, HeapViews.Good, PageHeap.Coupled, PageMaps.PageMap.Valid;
      hide CentralCache.Serves, Stocked, Backs;
      central.ServesParts(heap);
      forall d | 0 <= d < NUM_SIZE_CLASSES
        ensures Backs(d, central)
      {
        StockedAt(d, central);
      }
      BacksParts(c, central);
      var batchSize := ClassInfo(c).batchSize;
      ghost var s0 := caches[c].Stack();
      var top := PopFrom(c);
      if top.Some? {
        ObjectsKept(s0, []);
        NoDupSplit(Stock(c), top.value);
        n, objs := batchSize, top.value;
        BacksFrom(c, central);
      } else {
        assert Stock(c) == [];
        n, objs := central.Remove(c, count, heap);
        assert Stock(c) == [];
        BacksFrom(c, central);
      }
      forall d | 0 <= d < NUM_SIZE_CLASSES && d != c
        ensures Backs(d, central)
      {
        central.GetApart(c, d);
        CachesApart(c, d);
      }
      StockedFrom(central);
    }

    /**
     * insert_range: a chain of exactly batch_size objects goes onto the
     * class's transfer cache when a slot is free; any other chain, or one
     * that finds the cache full, goes back to the central free list.
     */
    method InsertRange(c: nat, batch: seq<nat>, count: nat, central: CentralCache, heap: PageHeap)
      requires Valid() && central.Serves(heap) && 1 <= c < NUM_SIZE_CLASSES && Stocked(central)
      requires count == |batch| && NoDup(batch) && Elems(batch) <= central.Get(c).Out() && Elems(batch) !! Elems(Stock(c))
      modifies caches[c], caches[c].slots, central.Get(c), central.Get(c).nonempty, central.Get(c).spans
      modifies heap, heap.pm, heap.pm.root, heap.slab, heap.free
      ensures Valid() && central.Serves(heap) && Stocked(central)
      ensures heap.free <= old(heap.free) + central.Repr
      ensures old(count == ClassInfo(c).batchSize && |caches[c].Stack()| < MAX_TRANSFER_SLOTS) ==>
        caches[c].Stack() == old(caches[c].Stack()) + [batch] && central.Get(c).Snapshot() == old(central.Get(c).Snapshot())
      ensures old(count != ClassInfo(c).batchSize || |caches[c].Stack()| == MAX_TRANSFER_SLOTS) ==>
        caches[c].Stack() == old(caches[c].Stack()) && central.Get(c).Out() == old(central.Get(c).Out()) - Elems(batch)
      ensures old(count != ClassInfo(c).batchSize || |caches[c].Stack()| == MAX_TRANSFER_SLOTS) ==>
        old(Pending(central.Get(c).Snapshot(), batch)) && central.Get(c).Snapshot() == ReclaimAll(old(central.Get(c).Snapshot()), batch)
    {
      hide Fine, SpanList.Valid, OutOf, CoupledOn, CentralFreeList.Valid, CentralFreeList.Coherent, CentralFreeList.Linked, Pending, ReclaimAll;
      hide PageHeap.Valid, HeapViews.Good, PageHeap.Coupled, PageMaps.PageMap.Valid;
      hide CentralCache.Serves, Stocked, Backs;
      central.ServesParts(heap);
      forall d | 0 <= d < NUM_SIZE_CLASSES
        ensures Backs(d, central)
      {
        StockedAt(d, central);
      }
      BacksParts(c, central);
      var batchSize := ClassInfo(c).batchSize;
      ghost var s0 := caches[c].Stack();
      var cached := false;
      if count == batchSize {
        cached := PushOnto(c, batch);
      }
      if cached {
        ObjectsKept(s0, batch);
        NoDupJoin(Flat(s0), batch);
        BacksFrom(c, central);
      } else {
        ghost var stock := Stock(c);
        assert batch[..Min(count, |batch|)] == batch;
        central.Insert(c, batch, count, heap);
        assert Stock(c) == stock;
        BacksFrom(c, central);
      }
      forall d | 0 <= d < NUM_SIZE_CLASSES && d != c
        ensures Backs(d, central)
      {
        central.GetApart(c, d);
        CachesApart(c, d);
      }
      StockedFrom(central);
    }
  }
}
