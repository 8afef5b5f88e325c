/**
 * The static size-class table and the lookups over it: a request size maps
 * to the smallest class whose object size fits it; sizes above
 * MAX_SMALL_SIZE map to class 0, which means "large allocation".
 */
module SizeClass {
  import opened Config

  /** One row of the size-class table. */
  datatype SizeClassInfo = SizeClassInfo(size: nat, pages: nat, batchSize: nat)
  {
    /** Objects that fit in one span of this class (floor division). */
    function ObjectsPerSpan(): (n: nat)
      requires size > 0
      ensures n * size <= pages * PAGE_SIZE < (n + 1) * size
    {
      pages * PAGE_SIZE / size
    }
  }

  /** Number of table rows; row 0 is a sentinel. */
  const NUM_SIZE_CLASSES: nat := 46
  /** Largest size served by a size class. */
  const MAX_SMALL_SIZE: nat := 262144
  /** Entries of the small-size lookup table, indexed by (size + 7) / 8. */
  const SMALL_LOOKUP_LEN: nat := 129

  /** The SIZE_CLASSES table: row cls describes class cls, row 0 is a sentinel. */
  const SIZE_CLASSES: seq<SizeClassInfo> :=
    [
      SizeClassInfo(0, 0, 0), SizeClassInfo(8, 1, 32), SizeClassInfo(16, 1, 32), SizeClassInfo(24, 1, 32),
      SizeClassInfo(32, 1, 32), SizeClassInfo(40, 1, 32), SizeClassInfo(48, 1, 32), SizeClassInfo(56, 1, 32),
      SizeClassInfo(64, 1, 32), SizeClassInfo(80, 1, 32), SizeClassInfo(96, 1, 32), SizeClassInfo(112, 1, 32),
      SizeClassInfo(128, 1, 32), SizeClassInfo(160, 1, 32), SizeClassInfo(192, 1, 32), SizeClassInfo(224, 1, 32),
      SizeClassInfo(256, 1, 32), SizeClassInfo(320, 1, 32), SizeClassInfo(384, 1, 32), SizeClassInfo(448, 1, 32),
      SizeClassInfo(512, 1, 32), SizeClassInfo(640, 1, 32), SizeClassInfo(768, 1, 32)
    ] +
    [
      SizeClassInfo(896, 1, 32), SizeClassInfo(1024, 1, 32), SizeClassInfo(1280, 2, 32), SizeClassInfo(1536, 2, 32),
      SizeClassInfo(1792, 2, 32), SizeClassInfo(2048, 2, 32), SizeClassInfo(2560, 4, 25), SizeClassInfo(3072, 4, 21),
      SizeClassInfo(3584, 4, 18), SizeClassInfo(4096, 4, 16), SizeClassInfo(5120, 5, 12), SizeClassInfo(6144, 6, 10),
      SizeClassInfo(7168, 7, 9), SizeClassInfo(8192, 8, 8), SizeClassInfo(10240, 10, 6), SizeClassInfo(12288, 12, 5),
      SizeClassInfo(16384, 16, 4), SizeClassInfo(20480, 20, 3), SizeClassInfo(32768, 16, 2), SizeClassInfo(40960, 20, 2),
      SizeClassInfo(65536, 32, 2), SizeClassInfo(131072, 32, 2), SizeClassInfo(262144, 64, 2)
    ]

  /** Row cls of SIZE_CLASSES. */
  function ClassInfo(cls: nat): SizeClassInfo
    requires cls < NUM_SIZE_CLASSES
  {
    SIZE_CLASSES[cls]
  }

  /** Object size of class cls. */
  function ClassToSize(cls: nat): nat
    requires cls < NUM_SIZE_CLASSES
  {
    ClassInfo(cls).size
  }

  /**
   * The linear search shared by the lookup-table build and size_to_class:
   * the first class at or after `from` whose size is at least `size`, or
   * NUM_SIZE_CLASSES when there is none.
   */
  function Scan(size: nat, from: nat): (r: nat)
    requires from <= NUM_SIZE_CLASSES
    ensures from <= r <= NUM_SIZE_CLASSES
    ensures r < NUM_SIZE_CLASSES ==> ClassToSize(r) >= size
    ensures forall k :: from <= k < r ==> ClassToSize(k) < size
    decreases NUM_SIZE_CLASSES - from
  {
    if from == NUM_SIZE_CLASSES then from
    else if ClassToSize(from) >= size then from
    else Scan(size, from + 1)
  }

  /**
   * Entry i of SMALL_LOOKUP: the first class from 1 whose size covers i * 8
   * (0 for entry 0), capped at the last class.
   */
  function SmallLookup(i: nat): (cls: nat)
    requires i < SMALL_LOOKUP_LEN
    ensures 1 <= cls < NUM_SIZE_CLASSES
    ensures ClassToSize(cls) >= i * 8
    ensures forall k :: 1 <= k < cls ==> ClassToSize(k) < i * 8
  {
    var c := Scan(if i == 0 then 0 else i * 8, 1);
    if c >= NUM_SIZE_CLASSES then NUM_SIZE_CLASSES - 1 else c
  }

  /** size_to_class: 1 for size 0, 0 for large sizes, else the fitting class. */
  function SizeToClass(size: nat): (cls: nat)
    ensures cls < NUM_SIZE_CLASSES
  {
    if size == 0 then 1
    else if size > MAX_SMALL_SIZE then 0
    else if size <= 1024 then SmallLookup((size + 7) / 8)
    else
      var c := Scan(size, 25);
      if c < NUM_SIZE_CLASSES then c else 0
  }

  // ---------------------------------------------------------------------
  // Properties of the table

  /** Class sizes grow strictly from one class to the next. */
  lemma SizesStep()
    ensures forall k :: 1 <= k < NUM_SIZE_CLASSES - 1 ==> ClassToSize(k) < ClassToSize(k + 1)
  {
  }

  /** Class sizes are strictly increasing over classes 1..45. */
  lemma {:induction false} SizesIncreasing(j: nat, k: nat)
    requires 1 <= j < k < NUM_SIZE_CLASSES
    ensures ClassToSize(j) < ClassToSize(k)
    decreases k - j
  {
    SizesStep();
    if j + 1 < k {
      SizesIncreasing(j + 1, k);
    }
  }

  /** Row k is a multiple of 8 and, past the sentinel, a class that fits in its span with a batch of 2 to 32 objects. */
  predicate RowOk(k: nat)
    requires k < NUM_SIZE_CLASSES
  {
    ClassToSize(k) % 8 == 0
    && (k >= 1 ==> 0 < ClassInfo(k).size <= ClassInfo(k).pages * PAGE_SIZE && 2 <= ClassInfo(k).batchSize <= 32)
  }

  /** Every class size is a multiple of 8, and every real class fits in its span. */
  lemma TableRows()
    ensures forall k :: 0 <= k < NUM_SIZE_CLASSES ==> RowOk(k)
  {
    TableRowsLow();
    TableRowsHigh();
  }

  lemma TableRowsLow()
    ensures forall k :: 0 <= k < 23 ==> RowOk(k)
  {
  }

  lemma TableRowsHigh()
    ensures forall k :: 23 <= k < NUM_SIZE_CLASSES ==> RowOk(k)
  {
  }

  /** The facts of TableRows for one row. */
  lemma RowFacts(k: nat)
    requires k < NUM_SIZE_CLASSES
    ensures ClassToSize(k) % 8 == 0
    ensures k >= 1 ==> 0 < ClassInfo(k).size <= ClassInfo(k).pages * PAGE_SIZE && 2 <= ClassInfo(k).batchSize <= 32
  {
    TableRows();
    assert RowOk(k);
  }

  /** Every real class holds at least one object per span, and its objects fit in the span. */
  lemma ObjectsPerSpanPositive(cls: nat)
    requires 1 <= cls < NUM_SIZE_CLASSES
    ensures ClassInfo(cls).size > 0
    ensures ClassInfo(cls).ObjectsPerSpan() >= 1
    ensures ClassInfo(cls).ObjectsPerSpan() * ClassInfo(cls).size <= ClassInfo(cls).pages * PAGE_SIZE
  {
    RowFacts(cls);
  }

  /** One object of the class fits in any span of at least the class's page count. */
  lemma {:induction false} ClassFitsIn(cls: nat, pages: nat)
    requires 1 <= cls < NUM_SIZE_CLASSES && ClassInfo(cls).pages <= pages
    ensures 0 < ClassInfo(cls).size <= pages * PAGE_SIZE
  {
    var c := ClassInfo(cls);
    ObjectsPerSpanPositive(cls);
    assert c.size <= c.ObjectsPerSpan() * c.size;
    assert c.pages * PAGE_SIZE <= pages * PAGE_SIZE;
  }

  // ---------------------------------------------------------------------
  // Properties of size_to_class

  /** A zero-byte request is served by class 1, of size 8. */
  lemma SizeToClassZero()
    ensures SizeToClass(0) == 1 && ClassToSize(SizeToClass(0)) == 8
  {
  }

  /** Sizes above MAX_SMALL_SIZE map to class 0 (large). */
  lemma SizeToClassLarge(size: nat)
    requires size > MAX_SMALL_SIZE
    ensures SizeToClass(size) == 0
  {
  }

  /** For 1 <= size <= MAX_SMALL_SIZE the result is the smallest class that fits. */
  lemma SizeToClassSmallestFit(size: nat)
    requires 1 <= size <= MAX_SMALL_SIZE
    ensures 1 <= SizeToClass(size) < NUM_SIZE_CLASSES
    ensures ClassToSize(SizeToClass(size)) >= size
    ensures forall k :: 1 <= k < SizeToClass(size) ==> ClassToSize(k) < size
  {
    if size <= 1024 {
      LookupPathFit(size);
    } else {
      ScanPathFit(size);
    }
  }

  /** Sizes up to 1024 are answered by SMALL_LOOKUP[(size + 7) / 8]. */
  lemma LookupPathFit(size: nat)
    requires 1 <= size <= 1024
    ensures 1 <= SizeToClass(size) < NUM_SIZE_CLASSES
    ensures ClassToSize(SizeToClass(size)) >= size
    ensures forall k :: 1 <= k < SizeToClass(size) ==> ClassToSize(k) < size
  {
    var i := (size + 7) / 8;
    var cls := SmallLookup(i);
    assert SizeToClass(size) == cls;
    forall k | 1 <= k < cls
      ensures ClassToSize(k) < size
    {
      RowFacts(k);
      RoundedBelow(ClassToSize(k), i);
    }
  }

  /** A multiple of 8 below i * 8 is at most (i - 1) * 8. */
  lemma RoundedBelow(x: nat, i: nat)
    requires x % 8 == 0 && x < i * 8
    ensures x + 8 <= i * 8
  {
  }

  /** Sizes above 1024 are answered by scanning upward from class 25. */
  lemma ScanPathFit(size: nat)
    requires 1024 < size <= MAX_SMALL_SIZE
    ensures 1 <= SizeToClass(size) < NUM_SIZE_CLASSES
    ensures ClassToSize(SizeToClass(size)) >= size
    ensures forall k :: 1 <= k < SizeToClass(size) ==> ClassToSize(k) < size
  {
    var c := Scan(size, 25);
    assert ClassToSize(NUM_SIZE_CLASSES - 1) >= size;
    assert SizeToClass(size) == c;
    forall k | 1 <= k < c
      ensures ClassToSize(k) < size
    {
      if k < 24 {
        SizesIncreasing(k, 24);
      }
    }
  }

  /** Round trip: the size of every class maps back to that class. */
  lemma RoundTrip(cls: nat)
    requires 1 <= cls < NUM_SIZE_CLASSES
    ensures SizeToClass(ClassToSize(cls)) == cls
  {
    var size := ClassToSize(cls);
    assert 1 <= size <= MAX_SMALL_SIZE by {
      if cls < NUM_SIZE_CLASSES - 1 {
        SizesIncreasing(cls, NUM_SIZE_CLASSES - 1);
      }
    }
    SizeToClassSmallestFit(size);
    var found := SizeToClass(size);
    if found < cls {
      SizesIncreasing(found, cls);
    }
  }

  /** A larger request never maps to a smaller class (while both are small). */
  lemma SizeToClassMonotone(a: nat, b: nat)
    requires 1 <= a <= b <= MAX_SMALL_SIZE
    ensures SizeToClass(a) <= SizeToClass(b)
  {
    SizeToClassSmallestFit(a);
    SizeToClassSmallestFit(b);
  }
}
