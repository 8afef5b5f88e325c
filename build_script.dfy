/**
 * The build script: it resolves the configuration section (filling absent
 * fields with defaults and rejecting inconsistent values), derives pages and
 * batch sizes for classes given by size only, validates the class list and
 * lays out the size-class table the crate is compiled with. A failed
 * assertion or panic of the script is an `Err` here.
 */
module BuildScript {
  import opened Wrappers
  import Config
  import SizeClass

  // ---------------------------------------------------------------------
  // Derived class parameters

  /** Truncating division brackets n between two consecutive multiples of d. */
  lemma DivisionBounds(n: nat, d: nat)
    requires d > 0
    ensures (n / d) * d <= n < (n / d + 1) * d
  {
    var q, r := n / d, n % d;
    assert n == q * d + r && 0 <= r < d;
    assert (q + 1) * d == q * d + d;
  }

  /** The truncated quotient n / d is at least two exactly when n holds two copies of d. */
  lemma QuotientAtLeastTwo(n: nat, d: nat)
    requires d > 0
    ensures n / d >= 2 <==> 2 * d <= n
  {
    DivisionBounds(n, d);
    var q := n / d;
    if q >= 2 {
      assert 2 * d <= q * d;
    } else {
      assert (q + 1) * d <= 2 * d;
    }
  }

  /** Smallest q with q * d >= n (usize::div_ceil). */
  function DivCeil(n: nat, d: nat): (q: nat)
    requires d > 0
    ensures q * d >= n
    ensures q == 0 || (q - 1) * d < n
  {
    DivisionBounds(n + d - 1, d);
    var q := (n + d - 1) / d;
    assert q == 0 || (q - 1) * d == q * d - d;
    q
  }

  /**
   * Pages per span for a class given only by its size: one page for sizes up
   * to a page, room for eight objects up to four pages, room for two above.
   */
  function AutoPages(size: nat, pageSize: nat): (pages: nat)
    requires pageSize > 0
    ensures pages >= 1
    ensures size <= pageSize ==> pages == 1
    ensures pageSize < size <= pageSize * 4 ==>
      pages * pageSize >= 8 * size && (pages - 1) * pageSize < 8 * size
    ensures size > pageSize * 4 ==>
      pages * pageSize >= 2 * size && (pages - 1) * pageSize < 2 * size
  {
    if size <= pageSize then 1
    else if size <= pageSize * 4 then DivCeil(size * 8, pageSize)
    else DivCeil(size * 2, pageSize)
  }

  function Max(a: nat, b: nat): nat { if a >= b then a else b }

  /**
   * Batch size for a class given only by its size: 32 up to 1 KiB, then about
   * 64 KiB worth of objects up to 4 KiB, then a page worth; never below 2.
   */
  function AutoBatch(size: nat, pageSize: nat): (batch: nat)
    ensures batch >= 2
    ensures size <= 1024 ==> batch == 32
    ensures 1024 < size <= 4096 ==> batch * size <= 65536 < (batch + 1) * size
    ensures size > 4096 && pageSize < 2 * size ==> batch == 2
    ensures size > 4096 && 2 * size <= pageSize ==> batch * size <= pageSize < (batch + 1) * size
  {
    if size <= 1024 then 32
    else if size <= 4096 then DivisionBounds(65536, size); QuotientAtLeastTwo(65536, size); Max(65536 / size, 2)
    else DivisionBounds(pageSize, size); QuotientAtLeastTwo(pageSize, size); Max(pageSize / size, 2)
  }

  /** A class definition as the script derives it. */
  datatype ClassDef = ClassDef(size: nat, pages: nat, batchSize: nat)

  function AutoClass(size: nat, pageSize: nat): ClassDef
    requires pageSize > 0
  {
    ClassDef(size, AutoPages(size, pageSize), AutoBatch(size, pageSize))
  }

  // ---------------------------------------------------------------------
  // The configuration section

  /** The optional `[config]` fields; None means "absent from the file". */
  datatype ConfigSection = ConfigSection(
    pageSize: Option<nat>,
    threadCacheSize: Option<nat>,
    minPerThreadCache: Option<nat>,
    stealAmount: Option<nat>,
    maxFreeListLength: Option<nat>,
    maxOverages: Option<nat>,
    maxTransferSlots: Option<nat>,
    maxPages: Option<nat>)

  const EMPTY_SECTION: ConfigSection :=
    ConfigSection(None, None, None, None, None, None, None, None)

  datatype ResolvedConfig = ResolvedConfig(
    pageSize: nat,
    pageShift: nat,
    threadCacheSize: nat,
    minPerThreadCache: nat,
    stealAmount: nat,
    maxFreeListLength: nat,
    maxOverages: nat,
    maxTransferSlots: nat,
    maxPages: nat)

  /** The assertion of resolve_config that fails first. */
  datatype ConfigError =
    | PageSizeNotPowerOfTwo(pageSize: nat)
    | PageSizeTooSmall(pageSize: nat)
    | ZeroThreadCacheSize
    | ZeroMinPerThreadCache
    | ThreadCacheBelowMinimum(threadCacheSize: nat, minPerThreadCache: nat)
    | ZeroStealAmount
    | ZeroMaxFreeListLength
    | ZeroMaxOverages
    | ZeroMaxTransferSlots
    | ZeroMaxPages

  function Pow2(k: nat): (p: nat)
    ensures p >= 1
  {
    if k == 0 then 1 else 2 * Pow2(k - 1)
  }

  /** usize::is_power_of_two. */
  predicate IsPowerOfTwo(n: nat)
    decreases n
  {
    n == 1 || (n >= 2 && n % 2 == 0 && IsPowerOfTwo(n / 2))
  }

  /** usize::trailing_zeros, for n > 0. */
  function TrailingZeros(n: nat): nat
    requires n > 0
    decreases n
  {
    if n % 2 == 1 then 0 else 1 + TrailingZeros(n / 2)
  }

  /** For a power of two, shifting 1 left by its trailing-zero count gives it back. */
  lemma {:induction false} TrailingZerosOfPowerOfTwo(n: nat)
    requires n > 0 && IsPowerOfTwo(n)
    ensures Pow2(TrailingZeros(n)) == n
    decreases n
  {
    if n != 1 {
      TrailingZerosOfPowerOfTwo(n / 2);
    }
  }

  function UnwrapOr(o: Option<nat>, default: nat): nat
  {
    if o.Some? then o.value else default
  }

  /** resolve_config: defaults for absent fields, then the assertions in source order. */
  function ResolveConfig(cfg: ConfigSection): (r: Result<ResolvedConfig, ConfigError>)
    ensures r.Ok? ==> Pow2(r.value.pageShift) == r.value.pageSize
  {
    var pageSize := UnwrapOr(cfg.pageSize, 8192);
    if !(pageSize > 0 && IsPowerOfTwo(pageSize)) then Err(PageSizeNotPowerOfTwo(pageSize))
    else if pageSize < 4096 then Err(PageSizeTooSmall(pageSize))
    else
      var threadCacheSize := UnwrapOr(cfg.threadCacheSize, 32 * 1024 * 1024);
      var minPerThreadCache := UnwrapOr(cfg.minPerThreadCache, 512 * 1024);
      var stealAmount := UnwrapOr(cfg.stealAmount, 64 * 1024);
      var maxFreeListLength := UnwrapOr(cfg.maxFreeListLength, 8192);
      var maxOverages := UnwrapOr(cfg.maxOverages, 3);
      var maxTransferSlots := UnwrapOr(cfg.maxTransferSlots, 64);
      var maxPages := UnwrapOr(cfg.maxPages, 128);
      if threadCacheSize == 0 then Err(ZeroThreadCacheSize)
      else if minPerThreadCache == 0 then Err(ZeroMinPerThreadCache)
      else if threadCacheSize < minPerThreadCache then
        Err(ThreadCacheBelowMinimum(threadCacheSize, minPerThreadCache))
      else if stealAmount == 0 then Err(ZeroStealAmount)
      else if maxFreeListLength == 0 then Err(ZeroMaxFreeListLength)
      else if maxOverages == 0 then Err(ZeroMaxOverages)
      else if maxTransferSlots == 0 then Err(ZeroMaxTransferSlots)
      else if maxPages == 0 then Err(ZeroMaxPages)
      else
        TrailingZerosOfPowerOfTwo(pageSize);
        Ok(ResolvedConfig(pageSize, TrailingZeros(pageSize), threadCacheSize,
          minPerThreadCache, stealAmount, maxFreeListLength, maxOverages,
          maxTransferSlots, maxPages))
  }

  /** With no configuration section, the defaults are exactly the constants the crate uses. */
  lemma ResolveDefaults()
    ensures ResolveConfig(EMPTY_SECTION).Ok?
    ensures ResolveConfig(EMPTY_SECTION).value == ResolvedConfig(
      Config.PAGE_SIZE, Config.PAGE_SHIFT, Config.OVERALL_THREAD_CACHE_SIZE,
      Config.MIN_PER_THREAD_CACHE_SIZE, Config.STEAL_AMOUNT,
      Config.MAX_DYNAMIC_FREE_LIST_LENGTH, Config.MAX_OVERAGES,
      Config.MAX_TRANSFER_SLOTS, Config.MAX_PAGES)
  {
    DefaultPageSize();
  }

  /** The default page size is a power of two with 13 trailing zeros. */
  lemma DefaultPageSize()
    ensures IsPowerOfTwo(8192) && TrailingZeros(8192) == 13
  {
    assert IsPowerOfTwo(8192) by {
      assert IsPowerOfTwo(1);
      assert IsPowerOfTwo(2);
      assert IsPowerOfTwo(4);
      assert IsPowerOfTwo(8);
      assert IsPowerOfTwo(16);
      assert IsPowerOfTwo(32);
      assert IsPowerOfTwo(64);
      assert IsPowerOfTwo(128);
      assert IsPowerOfTwo(256);
      assert IsPowerOfTwo(512);
      assert IsPowerOfTwo(1024);
      assert IsPowerOfTwo(2048);
      assert IsPowerOfTwo(4096);
    }
    assert TrailingZeros(8192) == 13;
  }

  /** A field that is present overrides its default; an absent one takes build.rs's default. */
  lemma ResolveKeepsGivenValues(cfg: ConfigSection)
    requires ResolveConfig(cfg).Ok?
    ensures cfg.pageSize.Some? ==> ResolveConfig(cfg).value.pageSize == cfg.pageSize.value
    ensures cfg.threadCacheSize.Some? ==> ResolveConfig(cfg).value.threadCacheSize == cfg.threadCacheSize.value
    ensures cfg.minPerThreadCache.Some? ==> ResolveConfig(cfg).value.minPerThreadCache == cfg.minPerThreadCache.value
    ensures cfg.stealAmount.Some? ==> ResolveConfig(cfg).value.stealAmount == cfg.stealAmount.value
    ensures cfg.maxFreeListLength.Some? ==> ResolveConfig(cfg).value.maxFreeListLength == cfg.maxFreeListLength.value
    ensures cfg.maxOverages.Some? ==> ResolveConfig(cfg).value.maxOverages == cfg.maxOverages.value
    ensures cfg.maxTransferSlots.Some? ==> ResolveConfig(cfg).value.maxTransferSlots == cfg.maxTransferSlots.value
    ensures cfg.maxPages.Some? ==> ResolveConfig(cfg).value.maxPages == cfg.maxPages.value
    ensures cfg.pageSize.None? ==> ResolveConfig(cfg).value.pageSize == 8192 && ResolveConfig(cfg).value.pageShift == 13
    ensures cfg.threadCacheSize.None? ==> ResolveConfig(cfg).value.threadCacheSize == 32 * 1024 * 1024
    ensures cfg.minPerThreadCache.None? ==> ResolveConfig(cfg).value.minPerThreadCache == 512 * 1024
    ensures cfg.stealAmount.None? ==> ResolveConfig(cfg).value.stealAmount == 64 * 1024
    ensures cfg.maxFreeListLength.None? ==> ResolveConfig(cfg).value.maxFreeListLength == 8192
    ensures cfg.maxOverages.None? ==> ResolveConfig(cfg).value.maxOverages == 3
    ensures cfg.maxTransferSlots.None? ==> ResolveConfig(cfg).value.maxTransferSlots == 64
    ensures cfg.maxPages.None? ==> ResolveConfig(cfg).value.maxPages == 128
  {
    if cfg.pageSize.None? {
      DefaultPageSize();
    }
  }

  /**
   * The configuration is rejected exactly when the page size is not a power
   * of two of at least 4096, a limit is zero, or the thread-cache budget is
   * below the per-thread minimum.
   */
  lemma ResolveRejects(cfg: ConfigSection)
    ensures var pageSize := UnwrapOr(cfg.pageSize, 8192);
      var tcs := UnwrapOr(cfg.threadCacheSize, 32 * 1024 * 1024);
      var minPer := UnwrapOr(cfg.minPerThreadCache, 512 * 1024);
      ResolveConfig(cfg).Err? <==>
        !IsPowerOfTwo(pageSize) || pageSize < 4096
        || tcs == 0 || minPer == 0 || tcs < minPer
        || UnwrapOr(cfg.stealAmount, 64 * 1024) == 0
        || UnwrapOr(cfg.maxFreeListLength, 8192) == 0
        || UnwrapOr(cfg.maxOverages, 3) == 0
        || UnwrapOr(cfg.maxTransferSlots, 64) == 0
        || UnwrapOr(cfg.maxPages, 128) == 0
  {
  }

  // ---------------------------------------------------------------------
  // Class lists

  /** A `[[class]]` entry: pages and batch_size may be left to the auto rules. */
  datatype ClassFull = ClassFull(size: nat, pages: Option<nat>, batchSize: Option<nat>)

  /** The parts of the configuration file that define classes. */
  datatype ClassConfig = ClassConfig(classes: seq<nat>, classFull: seq<ClassFull>)

  /** The first failed check of validate_classes. */
  datatype ClassError =
    | BothClassForms
    | NoClassForm
    | NoClasses
    | TooManyClasses(count: nat)
    | ZeroSize(index: nat)
    | Misaligned(index: nat, size: nat)
    | ZeroPages(index: nat)
    | ZeroBatch(index: nat)
    | NotIncreasing(index: nat, size: nat, previous: nat)

  /** What validate_classes demands of one entry (and of its predecessor). */
  predicate EntryOk(defs: seq<ClassDef>, i: nat)
    requires i < |defs|
  {
    defs[i].size > 0 && defs[i].size % 8 == 0 && defs[i].pages > 0 && defs[i].batchSize > 0
    && (i > 0 ==> defs[i].size > defs[i - 1].size)
  }

  /** A class list the crate can be built with. */
  predicate ValidClassList(defs: seq<ClassDef>)
  {
    0 < |defs| < 64 && forall i :: 0 <= i < |defs| ==> EntryOk(defs, i)
  }

  /** The assertion that fails for entry i, in the order validate_classes checks them. */
  function EntryError(defs: seq<ClassDef>, i: nat): ClassError
    requires i < |defs| && !EntryOk(defs, i)
  {
    var d := defs[i];
    if d.size == 0 then ZeroSize(i)
    else if d.size % 8 != 0 then Misaligned(i, d.size)
    else if d.pages == 0 then ZeroPages(i)
    else if d.batchSize == 0 then ZeroBatch(i)
    else NotIncreasing(i, d.size, defs[i - 1].size)
  }

  /** The per-entry checks of validate_classes, from entry i on: the first failure. */
  function CheckEntriesFrom(defs: seq<ClassDef>, i: nat): (r: Option<ClassError>)
    requires i <= |defs|
    ensures r.None? <==> forall j :: i <= j < |defs| ==> EntryOk(defs, j)
    decreases |defs| - i
  {
    if i == |defs| then None
    else if !EntryOk(defs, i) then Some(EntryError(defs, i))
    else CheckEntriesFrom(defs, i + 1)
  }

  /** validate_classes: None when the list passes every assertion. */
  function ValidateClasses(defs: seq<ClassDef>): (r: Option<ClassError>)
    ensures r.None? <==> ValidClassList(defs)
  {
    if |defs| == 0 then Some(NoClasses)
    else if |defs| >= 64 then Some(TooManyClasses(|defs|))
    else CheckEntriesFrom(defs, 0)
  }

  /** The `[[class]]` form: explicit pages/batch_size win over the auto values. */
  function FullDef(c: ClassFull, pageSize: nat): (d: ClassDef)
    requires pageSize > 0
    ensures d.size == c.size
    ensures d.pages == (if c.pages.Some? then c.pages.value else AutoPages(c.size, pageSize))
    ensures d.batchSize == (if c.batchSize.Some? then c.batchSize.value else AutoBatch(c.size, pageSize))
  {
    ClassDef(c.size, UnwrapOr(c.pages, AutoPages(c.size, pageSize)),
      UnwrapOr(c.batchSize, AutoBatch(c.size, pageSize)))
  }

  /** parse_classes: pick one of the two forms, derive the definitions, validate them. */
  function ParseClasses(config: ClassConfig, pageSize: nat): (r: Result<seq<ClassDef>, ClassError>)
    requires pageSize > 0
  {
    if |config.classes| > 0 && |config.classFull| > 0 then Err(BothClassForms)
    else
      var defs :=
        if |config.classes| > 0 then
          Ok(seq(|config.classes|, i requires 0 <= i < |config.classes| => AutoClass(config.classes[i], pageSize)))
        else if |config.classFull| > 0 then
          Ok(seq(|config.classFull|, i requires 0 <= i < |config.classFull| => FullDef(config.classFull[i], pageSize)))
        else Err(NoClassForm);
      if defs.Err? then defs
      else
        var check := ValidateClasses(defs.value);
        if check.Some? then Err(check.value) else defs
  }

  /**
   * parse_classes fails when both forms or neither form is given; otherwise
   * it yields one definition per listed class, in order, and only a list
   * that passes validation.
   */
  lemma ParseClassesOutcome(config: ClassConfig, pageSize: nat)
    requires pageSize > 0
    ensures |config.classes| > 0 && |config.classFull| > 0 ==> ParseClasses(config, pageSize) == Err(BothClassForms)
    ensures |config.classes| == 0 && |config.classFull| == 0 ==> ParseClasses(config, pageSize) == Err(NoClassForm)
    ensures ParseClasses(config, pageSize).Ok? ==> ValidClassList(ParseClasses(config, pageSize).value)
    ensures ParseClasses(config, pageSize).Ok? && |config.classes| > 0 ==>
      var defs := ParseClasses(config, pageSize).value;
      |defs| == |config.classes|
      && forall i :: 0 <= i < |defs| ==> defs[i] == AutoClass(config.classes[i], pageSize)
    ensures ParseClasses(config, pageSize).Ok? && |config.classes| == 0 ==>
      var defs := ParseClasses(config, pageSize).value;
      |defs| == |config.classFull|
      && forall i :: 0 <= i < |defs| ==> defs[i] == FullDef(config.classFull[i], pageSize)
  {
  }

  // ---------------------------------------------------------------------
  // The generated size-class table

  /** The row the generated table holds for one definition. */
  function Row(d: ClassDef): SizeClass.SizeClassInfo
  {
    SizeClass.SizeClassInfo(d.size, d.pages, d.batchSize)
  }

  /** generate_size_classes: an all-zero sentinel, then one row per definition. */
  method GenerateSizeClasses(defs: seq<ClassDef>) returns (table: seq<SizeClass.SizeClassInfo>)
    ensures |table| == |defs| + 1
    ensures table[0] == SizeClass.SizeClassInfo(0, 0, 0)
    ensures forall i :: 0 <= i < |defs| ==> table[i + 1] == Row(defs[i])
  {
    table := [SizeClass.SizeClassInfo(0, 0, 0)];
    var i := 0;
    while i < |defs|
      invariant 0 <= i <= |defs|
      invariant |table| == i + 1
      invariant table[0] == SizeClass.SizeClassInfo(0, 0, 0)
      invariant forall j :: 0 <= j < i ==> table[j + 1] == Row(defs[j])
    {
      table := table + [Row(defs[i])];
      i := i + 1;
    }
  }

  /**
   * The table generated from a validated list has at most 64 rows, and its
   * real rows have positive, 8-aligned, strictly increasing sizes: the
   * properties the size-class lookups rely on.
   */
  lemma {:induction false} GeneratedTableOrdered(defs: seq<ClassDef>, table: seq<SizeClass.SizeClassInfo>, j: nat, k: nat)
    requires ValidClassList(defs)
    requires |table| == |defs| + 1
    requires forall i :: 0 <= i < |defs| ==> table[i + 1] == Row(defs[i])
    requires 1 <= j < k < |table|
    ensures |table| <= 64
    ensures table[j].size % 8 == 0 && 0 < table[j].size < table[k].size
    decreases k - j
  {
    assert EntryOk(defs, j - 1) && EntryOk(defs, k - 1);
    assert table[j] == Row(defs[j - 1]) && table[k] == Row(defs[k - 1]);
    if j + 1 < k {
      assert EntryOk(defs, j) && table[j + 1] == Row(defs[j]);
      GeneratedTableOrdered(defs, table, j + 1, k);
    }
  }

  /** The compiled-in SIZE_CLASSES rows 1..45, read back as class definitions. */
  function StaticDefs(): (defs: seq<ClassDef>)
    ensures |defs| == SizeClass.NUM_SIZE_CLASSES - 1
  {
    seq(SizeClass.NUM_SIZE_CLASSES - 1, i requires 0 <= i < SizeClass.NUM_SIZE_CLASSES - 1 =>
      var info := SizeClass.ClassInfo(i + 1);
      ClassDef(info.size, info.pages, info.batchSize))
  }

  lemma StaticEntryOk(defs: seq<ClassDef>, i: nat)
    requires defs == StaticDefs() && i < |defs|
    ensures EntryOk(defs, i)
  {
    SizeClass.RowFacts(i + 1);
    assert defs[i].size == SizeClass.ClassToSize(i + 1);
    if i > 0 {
      SizeClass.SizesIncreasing(i, i + 1);
      assert defs[i - 1].size == SizeClass.ClassToSize(i);
    }
  }

  /** The compiled-in table passes validate_classes. */
  lemma StaticTableValidates()
    ensures ValidateClasses(StaticDefs()) == None
  {
    var defs := StaticDefs();
    forall i | 0 <= i < |defs|
      ensures EntryOk(defs, i)
    {
      StaticEntryOk(defs, i);
    }
    assert CheckEntriesFrom(defs, 0).None?;
  }
}
