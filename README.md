# rtmalloc, modelled in Dafny

rtmalloc is a tcmalloc-style memory allocator written in Rust. This project
models its core and proves properties of that model:

- **Size classes.** There is a static table of 45 object sizes from 8 bytes
  to 256 KiB, plus a sentinel. `size_to_class` maps a request to a class
  through a 129-entry lookup table and a linear scan.
- **Build script.** It resolves the `[rtmalloc]` configuration, derives
  pages and batch sizes for classes given only by size, validates the
  class list and generates the table.
- **Allocation histogram.** It counts requests in 8-byte buckets, suggests
  classes that cover a fraction of the traffic, greedily merges
  per-bucket classes into an optimal layout and exports it as TOML.
- **Pages and spans.**
  - `Span` is a run of 8 KiB pages.
  - `SpanList` is an intrusive doubly linked list.
  - The span slab recycles `Span` structs.
  - The three-level page map goes from page id to span.
  - The OS page source is modelled as an oracle.
  - The page heap keeps exact-size free lists up to 128 pages and a large
    list. It does best-fit search, carving, coalescing with free
    neighbours, and growth from the OS.
- **Central free list.** There is one per class. It keeps spans carved
  into chains of free objects, hands out and takes back batches, and
  returns idle spans to the page heap.
- **Transfer cache.** It is a per-class LIFO of whole batches between the
  thread caches and the central lists.
- **Thread cache.** It keeps per-class free lists with slow-start bounds,
  overage tracking, low-water-mark scavenging and a shared byte budget.
- **Per-CPU slab (rseq crate).** It is a region per CPU with per-class
  pointer stacks, for single and batch push and pop.
- **Allocator front end.** It routes `GlobalAlloc` calls:
  - zero-byte requests get a dangling pointer;
  - small, suitably aligned requests go to a size class;
  - everything else goes to the page heap, with over-aligned blocks
    trimmed out of a larger span;
  - `dealloc` asks the page map for the span's own class;
  - `realloc` keeps the block in place while it fits, and the thread-local
    slot moves through its uninitialised, active and destroyed states.
- **Benchmark summary.** It reads criterion's `estimates.json`, collects
  timings from the result tree, formats times and ranks allocators, and
  recolours the violin plots.

Pure code (size classes, build script, the bench text handling, routing)
becomes datatypes, functions and lemmas. Code that mutates state becomes
classes or imperative methods, and each is proved against a specification
function or a value snapshot of the state:

- the histogram counters;
- the page map, span list, page heap, central list, transfer cache, thread
  cache and per-CPU slab;
- the scan loops of the bench.

Intrusive `FreeObject` chains are sequences of object addresses in list
order. A transfer-cache slot `(head, tail)` is the sequence of its batch.
Page ids and addresses are natural numbers, with `PAGE_SIZE = 8192`.

The page heap's invariant (`HeapViews.Good`) has these parts:

- the free lists hold exactly the free spans, each in the list for its
  size;
- live spans are disjoint page runs below the OS frontier;
- an in-use span is registered on every page, and a free span at its two
  ends;
- no recycled struct is live.

Every page-heap operation is stated as a transition of a value snapshot
that keeps the invariant.

The central list's invariant (`CentralViews.Fine`) has these parts:

- every object of the class is either free in its span's chain or out
  with exactly one caller;
- a span is listed exactly when it has a free object;
- `num_free` counts them.

The thread cache keeps a ledger (`Ready`/`Owns`). It says that, between
them, the thread lists, the transfer stock and the callers hold exactly
what the central lists have handed out.

## Model

| member | source | states |
|---|---|---|
| SizeClass.ObjectsPerSpan | src/size_class.rs:18-22 | the floor division: n objects fit in the span and n + 1 do not |
| SizeClass.Scan | src/size_class.rs:290-310 | the first class from `from` whose size covers the request, or the end; every class skipped is too small |
| SizeClass.SmallLookup | src/size_class.rs:288-313 | entry i of SMALL_LOOKUP is the smallest class of at least i*8 bytes, always a real class |
| SizeClass.SizeToClass | src/size_class.rs:315-338 | the result is a valid class index (0 meaning large) |
| SizeClass.SizesIncreasing | src/size_class.rs:35-284 | class sizes strictly increase over classes 1..45 (the table test at lines 410-421) |
| SizeClass.TableRows | src/size_class.rs:35-284 | every size is a multiple of 8; every real class has a positive size that fits in its pages and a batch size between 2 and 32 (tests at lines 424-445) |
| SizeClass.ObjectsPerSpanPositive | src/size_class.rs:437-445 | every real class holds at least one object per span, and its objects fit in the span |
| SizeClass.ClassFitsIn | src/size_class.rs:18-22 | one object of a class fits in any span of at least the class's page count |
| SizeClass.SizeToClassZero | src/size_class.rs:316-318 | size 0 maps to class 1, of 8 bytes (test at 355-359) |
| SizeClass.SizeToClassLarge | src/size_class.rs:319-321 | sizes above 256 KiB map to 0 (test at 390-393) |
| SizeClass.SizeToClassSmallestFit | src/size_class.rs:315-338 | for 1..=MAX_SMALL_SIZE the class is the smallest whose size covers the request (tests at 362-387) |
| SizeClass.LookupPathFit | src/size_class.rs:322-325 | the lookup-table path gives the smallest fitting class |
| SizeClass.ScanPathFit | src/size_class.rs:326-337 | the linear scan from class 25 gives the smallest fitting class |
| SizeClass.RoundTrip | src/size_class.rs:396-407 | size_to_class(class_to_size(c)) == c for every real class |
| SizeClass.SizeToClassMonotone | src/size_class.rs:315-338 | a larger small request never maps to a smaller class |
| BuildScript.DivCeil | build.rs:12-20 | the smallest q with q*d >= n |
| BuildScript.AutoPages | build.rs:12-20 | one page up to a page; room for eight objects up to four pages; room for two above |
| BuildScript.AutoBatch | build.rs:22-30 | 32 up to 1 KiB; max(65536/size, 2) up to 4 KiB; max(page_size/size, 2) above |
| BuildScript.TrailingZerosOfPowerOfTwo | build.rs:118 | page_shift is the exponent: 1 << trailing_zeros(page_size) == page_size |
| BuildScript.ResolveConfig | build.rs:81-126 | an accepted configuration has page_size == 2^page_shift |
| BuildScript.ResolveDefaults | build.rs:82-100 | with no section the defaults are 8192/13, 32 MiB, 512 KiB, 64 KiB, 8192, 3, 64, 128 |
| BuildScript.DefaultPageSize | build.rs:82-92 | the default page size passes the power-of-two check with 13 trailing zeros |
| BuildScript.ResolveKeepsGivenValues | build.rs:82-100 | a present field overrides its default; an absent one takes its default (page size 8192 with shift 13, 32 MiB thread caches, 512 KiB per thread, 64 KiB steal, 8192 list length, 3 overages, 64 transfer slots, 128 pages) |
| BuildScript.ResolveRejects | build.rs:83-114 | rejected exactly when the page size is not a power of two >= 4096, a limit is zero, or the budget is below the per-thread minimum |
| BuildScript.CheckEntriesFrom | build.rs:170-189 | the per-entry loop finds no failure iff every entry from i on passes |
| BuildScript.ValidateClasses | build.rs:160-189 | no failure iff the list is non-empty, below 64 entries, every entry is positive and 8-aligned, and sizes strictly increase |
| BuildScript.FullDef | build.rs:144-150 | explicit pages and batch_size win over the auto values |
| BuildScript.ParseClassesOutcome | build.rs:129-158 | both forms or neither fails; otherwise one definition per entry, in order, validated |
| BuildScript.GenerateSizeClasses | build.rs:222-240 | an all-zero sentinel row, then one row per definition, in order |
| BuildScript.GeneratedTableOrdered | build.rs:160-189 | a validated list gives at most 64 rows with positive, 8-aligned, strictly increasing sizes |
| BuildScript.StaticTableValidates | src/size_class.rs:35-284 | the compiled-in table passes validate_classes |
| Histogram.BucketIndex | src/histogram.rs:45 | bucket (size-1)/8 is the bucket i with i*8 < size <= (i+1)*8 |
| Histogram.Recorder.Record | src/histogram.rs:38-48 | zero is ignored, sizes above 4096 bump overflow, others bump exactly their bucket |
| Histogram.Recorder.TakeSnapshot | src/histogram.rs:61-70 | the snapshot equals the counters |
| Histogram.MaskedSumBound | src/histogram.rs:80-107 | a selection never covers more than the total, and covers all of it once every non-empty bucket is taken |
| Histogram.PickLargest | src/histogram.rs:84-96 | the untaken non-empty bucket with the largest count, the first on ties |
| Histogram.SelectLargest | src/histogram.rs:84-96 | taking the largest untaken bucket keeps the taken set top-heavy |
| Histogram.SuggestClasses | src/histogram.rs:80-107 | empty for an empty snapshot; otherwise strictly ascending observed bounds that cover the target |
| Histogram.SelectBuckets | src/histogram.rs:84-104 | buckets are taken in decreasing count order until the target is reached |
| Histogram.TakenDominate | src/histogram.rs:84-104 | a bucket left out has no more allocations than any bucket taken |
| Histogram.StopAtTarget | src/histogram.rs:97-101 | dropping a least-count taken bucket falls below the target: the walk stops at the first sufficient prefix |
| Histogram.WasteSumShift | src/histogram.rs:175-185 | serving the same buckets with a larger class costs (larger - smaller) bytes more per allocation |
| Histogram.PartitionAscending | src/histogram.rs:137-150 | under a partition the class sizes strictly increase |
| Histogram.CheapestMerge | src/histogram.rs:164-168 | min_by_key: the first adjacent pair of least cost |
| Histogram.Merge | src/histogram.rs:186-188 | ranges i and i+1 become one; every other range is kept in place |
| Histogram.MergePreservesPartition | src/histogram.rs:186-188 | a merge keeps the ranges a partition of the tracked buckets, with waste re-priced at the merged class |
| Histogram.PartitionTotal | src/histogram.rs:192-194 | the ranges hold every tracked allocation |
| Histogram.PartitionIsRangesOf | src/histogram.rs:192-211 | a partition is exactly the ranges its classes induce |
| Histogram.InitialRanges | src/histogram.rs:137-150 | one range per non-empty bucket, ascending, each with 7 bytes of waste per allocation |
| Histogram.BucketRangesOk | src/histogram.rs:137-150 | the per-bucket ranges are well formed, one per non-empty bucket, tile the buckets up to the last non-empty one, and waste 7 bytes per allocation |
| Histogram.Greedy | src/histogram.rs:161-189 | never more ranges than it started with; unchanged with at most max_classes ranges |
| Histogram.GreedyStops | src/histogram.rs:161-189 | merging never goes below max_classes, and stops above it only when the cheapest merge is too wasteful |
| Histogram.GreedyPartition | src/histogram.rs:161-189 | the greedy merge keeps a partition |
| Histogram.CheapestFit | src/histogram.rs:127-131 | the documented skip rule's choice: the first cheapest pair among the merges within the limit, None exactly when every merge is too wasteful |
| Histogram.CheapestFitAgrees | src/histogram.rs:165-176 | when the cheapest merge is within the limit, the skip rule picks that same pair |
| Histogram.GreedySkip | src/histogram.rs:121-131 | the documented merge: never more ranges than it started with, unchanged within max_classes |
| Histogram.GreedySkipStops | src/histogram.rs:124-131 | the documented merge never goes below max_classes, and stops above it only when every adjacent merge is too wasteful |
| Histogram.GreedySkipPartition | src/histogram.rs:121-131 | the documented merge keeps a partition |
| Histogram.GreedyAgrees | src/histogram.rs:161-189 | the code's loop and the documented rule give the same ranges whenever the loop does not stop on a too-wasteful merge above max_classes |
| Histogram.GreedyBreaksEarly | src/histogram.rs:174-176 | ranges of 8, 64 and 4096 bytes (10, 1 and 1000 allocations), max_classes 2, limit 1/8: the loop keeps three classes, yet merging 64 into 4096 is within the limit and the documented rule reaches two |
| Histogram.GreedyLayout | src/histogram.rs:161-189 | the class count lies between 1 and the non-empty bucket count, and is exactly that count when it is within max_classes |
| Histogram.MergeRanges | src/histogram.rs:161-189 | the merge loop computes the greedy merge and keeps a partition; it stops unmerged when within max_classes |
| Histogram.PartitionLayout | src/histogram.rs:192-211 | the layout's classes are valid and cover every non-empty bucket |
| Histogram.OptimalLayout | src/histogram.rs:135-212 | an empty snapshot gives the empty layout; otherwise valid ascending classes, as many as the greedy merge leaves, with totals summed over the ranges |
| Histogram.EmptyLayout | src/histogram.rs:152-158 | the empty layout has valid classes and zero totals |
| Histogram.ToToml | src/histogram.rs:219-222 | the line has the form `classes = [...]` followed by a newline |
| Histogram.ToTomlRoundTrip | src/histogram.rs:219-222 | parsing the exported line gives back exactly the layout's classes |
| Platform.PagesFor | src/platform.rs:20-24 | the OS rounds a request up to whole pages |
| Platform.PageSource.PageAlloc | src/platform.rs:20-24 | null when the request cannot be granted; otherwise a page-aligned region of fresh pages above everything handed out before |
| Platform.PageSource.PageDealloc | src/platform.rs:37-41 | the region is unmapped and its pages are never handed out again |
| Spans.Span.StartAddr | src/span.rs:55-57 | the page-aligned base address of the span |
| Spans.Span.ByteSize | src/span.rs:61-63 | pages * PAGE_SIZE |
| Spans.Span.EndPage | src/span.rs:67-69 | one past the last page |
| Spans.Span.ContainsAddr | src/span.rs:55-69 | a byte lies in the span exactly when its page lies in [start, end) |
| Spans.SpanList.IsEmpty | src/span.rs:146-148 | the head is null exactly when no span is listed |
| Spans.SpanList.Push | src/span.rs:97-107 | the span becomes the head with no predecessor; the others follow in order |
| Spans.SpanList.Remove | src/span.rs:114-130 | the span is unlinked from wherever it is; the others keep their order and links |
| Spans.SpanList.Pop | src/span.rs:137-143 | null on an empty list; otherwise the head is removed and returned |
| Spans.AlignUp | src/span.rs:185-189 | the smallest multiple of SPAN_ALIGN at or above the address |
| Spans.SpanSlab.AllocRaw | src/span.rs:175-208 | the most recently freed struct; else the next aligned slot of the slab page; else a new slab page, or null |
| Spans.SpanSlab.Alloc | src/span.rs:223-229 | a struct with every field cleared; null exactly when nothing is recycled, the slab page is full and the OS refuses a page, which then still holds |
| Spans.SpanSlab.Dealloc | src/span.rs:210-216 | the struct goes on the recycle list through its next field |
| PageMaps.SplitRecombines | src/pagemap.rs:16-43 | the three indices recombine to the page id; the root index fits below 2^35 |
| PageMaps.SplitInjective | src/pagemap.rs:16-43 | distinct page ids differ in some index |
| PageMaps.PageMap.Get | src/pagemap.rs:71-91 | null past the root, under a missing node, or where nothing is set; otherwise the entry |
| PageMaps.PageMap.Set | src/pagemap.rs:98-123 | afterwards page p maps to s and no other page changes |
| PageMaps.PageMap.RegisterSpan | src/pagemap.rs:129-135 | every page of the span maps to it; other pages keep their entry |
| PageMaps.PageMap.RegisterSpanEndpoints | src/pagemap.rs:146-153 | the first and last pages map to the span; nothing else changes |
| PageMaps.PageMap.UnregisterSpan | src/pagemap.rs:159-165 | every page of the span maps to nothing; other pages keep their entry |
| HeapViews.PushFreeKeeps | src/page_heap.rs:153-160 | insert_free keeps the heap invariant |
| HeapViews.TakeFreeKeeps | src/page_heap.rs:47-70 | taking a free span off its list keeps the invariant |
| HeapViews.SplitKeeps | src/page_heap.rs:99-150 | a carve split keeps the invariant |
| HeapViews.AbsorbKeeps | src/page_heap.rs:248-320 | a coalescing merge keeps the invariant |
| HeapViews.AddFreshKeeps | src/page_heap.rs:183-245 | adopting a fresh OS region keeps the invariant |
| HeapViews.LeftNeighbour | src/page_heap.rs:248-284 | the page before a freed span maps to the live span ending exactly there, free exactly when marked free |
| HeapViews.RightNeighbour | src/page_heap.rs:287-320 | the page after a freed span maps to the live span starting exactly there |
| HeapViews.LiveApart | src/page_heap.rs:99-150 | no two live spans share a page |
| HeapViews.InUseMapped | src/page_heap.rs:140-148 | every page of an in-use span maps to it |
| PageHeaps.PageHeap.InsertFree | src/page_heap.rs:153-160 | the span goes to the head of the list for its size (the large list above 128 pages) |
| PageHeaps.PageHeap.FindBestLargeSpan | src/page_heap.rs:163-180 | the first large span with the fewest pages >= n, stopping at an exact fit; null iff none fits |
| PageHeaps.PageHeap.TakeFit | src/page_heap.rs:47-63 | the head of the first non-empty exact list from n up, else the best large fit; null iff no free span fits |
| PageHeaps.FirstNonEmpty | src/page_heap.rs:51-58 | the exact-size search stops at the first non-empty list from n up, or finds none |
| PageHeaps.PageHeap.SplitInto | src/page_heap.rs:117-135 | the span keeps its first n pages; the rest becomes a free span at the head of the list for its size, every other list unchanged |
| PageHeaps.PageHeap.Trim | src/page_heap.rs:99-138 | with a struct for the rest, the span keeps its first n pages and the rest is a new free span at the head of its list; without one (the struct slab exhausted) the span and the lists are unchanged |
| PageHeaps.PageHeap.CarveSpan | src/page_heap.rs:99-150 | the span is handed out and registered on every page; it has exactly n pages unless the struct slab is exhausted, and the cut-off rest is a new free span at the head of its list |
| PageHeaps.PageHeap.CoalesceLeft | src/page_heap.rs:248-284 | a free span ending where the freed one starts leaves its list and absorbs it; otherwise nothing changes |
| PageHeaps.PageHeap.CoalesceRight | src/page_heap.rs:287-320 | a free span starting where the freed one ends leaves its list and is absorbed |
| PageHeaps.PageHeap.DeallocateSpan | src/page_heap.rs:78-95 | the span comes back free, merged with its free neighbours, and the merged span goes on the lists |
| PageHeaps.PageHeap.GrowHeapExact | src/page_heap.rs:223-245 | n fresh pages become one span handed out whole; null when the OS or the slab fails |
| PageHeaps.PageHeap.GrowHeap | src/page_heap.rs:183-220 | max(n, 128) fresh pages carved to n, the rest a free span at the head of its list (all of them handed out only when the struct slab is exhausted); falls back to exactly n pages; null only when the OS cannot give n pages or the slab has no struct |
| PageHeaps.PageHeap.AllocateSpan | src/page_heap.rs:47-70 | the first exact-list fit, else the best large fit, else fresh pages, handed out with exactly n pages unless the struct slab is exhausted; the cut-off rest is a free span right after it; null only when no free span fits and the OS or the slab fails |
| PageHeaps.PageHeap.Holding | src/page_heap.rs:99-150 | a handed-out span is in use, not free, not recycled, and mapped on every page |
| PageHeaps.PageHeap.HeldApart | src/page_heap.rs:99-150 | two handed-out spans share no page |
| CentralViews.TakeKeeps | src/central_free_list.rs:48-84 | handing out a head object keeps the invariant and moves exactly that object out |
| CentralViews.InjectKeeps | src/central_free_list.rs:152-189 | injecting a span apart from the list's spans keeps the invariant and hands nothing out |
| CentralViews.FreshCarved | src/central_free_list.rs:160-180 | the carved objects lie in the span and are distinct |
| CentralViews.ReturnKeeps | src/central_free_list.rs:93-122 | taking an object back keeps the invariant; it is free again and no longer out |
| CentralViews.ReleaseKeeps | src/central_free_list.rs:123-137 | giving an idle span back keeps the invariant and changes nothing that is out |
| CentralViews.ReclaimAllKeeps | src/central_free_list.rs:93-138 | taking a chain back keeps the invariant and takes exactly its objects off the books |
| CentralFreeLists.CentralFreeList.constructor | src/central_free_list.rs:32-38 | an empty list for the class |
| CentralFreeLists.CentralFreeList.RemoveRange | src/central_free_list.rs:48-84 | up to batch objects, last taken first, populating from the page heap when empty; the invariant is kept and exactly the returned objects are now out |
| CentralFreeLists.CentralFreeList.RemoveRangeDroppingLock | src/central_free_list.rs:200-253 | the same contract as RemoveRange, with the lock drops left out |
| CentralFreeLists.CentralFreeList.Detach | src/central_free_list.rs:100-122 | the page map gives the object's span; an object whose page maps to nothing is skipped |
| CentralFreeLists.CentralFreeList.InsertRange | src/central_free_list.rs:93-138 | the first count objects of the chain come back; idle spans go back to the page heap |
| CentralFreeLists.CentralFreeList.InsertRangeDroppingLock | src/central_free_list.rs:261-315 | the objects come back; idle spans are held (at most 8 at a time) and then released to the page heap |
| CentralFreeLists.CentralFreeList.InjectSpan | src/central_free_list.rs:152-189 | the span takes the class, is registered page by page and carved into pages*PAGE_SIZE/size objects chained in address order |
| CentralFreeLists.CentralFreeList.Populate | src/central_free_list.rs:141-148 | a span of the class's page count from the page heap, carved into the list; nothing when the heap fails |
| CentralFreeLists.CentralCache.constructor | src/central_free_list.rs:337-345 | list i is built for class i, and every list starts empty |
| CentralFreeLists.CentralCache.Get | src/central_free_list.rs:349-351 | the list of the given class |
| CentralFreeLists.CentralCache.Remove | src/central_free_list.rs:200-253 | remove on one class leaves every other class's list and invariant alone |
| CentralFreeLists.CentralCache.Insert | src/central_free_list.rs:261-315 | insert on one class leaves every other class's list and invariant alone |
| TransferCaches.PopAfterPush | src/transfer_cache.rs:45-62 | LIFO: a successful push is undone by the next pop |
| TransferCaches.PushBounded | src/transfer_cache.rs:55-62 | push fails exactly when all slots are used |
| TransferCaches.ObjectsKept | src/transfer_cache.rs:45-62 | neither push nor pop loses or invents an object |
| TransferCaches.TransferCache.constructor | src/transfer_cache.rs:34-42 | every slot empty |
| TransferCaches.TransferCache.Pop | src/transfer_cache.rs:45-52 | None on an empty stack; otherwise the top batch, removed |
| TransferCaches.TransferCache.Push | src/transfer_cache.rs:55-62 | false on a full stack, left alone; otherwise the batch goes on top |
| TransferCaches.TransferCacheArray.constructor | src/transfer_cache.rs:78-82 | an empty cache for every class |
| TransferCaches.TransferCacheArray.RemoveRange | src/transfer_cache.rs:90-119 | a whole cached batch when there is one; otherwise the central list's remove_range |
| TransferCaches.TransferCacheArray.InsertRange | src/transfer_cache.rs:130-162 | a chain of exactly batch_size objects goes on the stack if there is room; anything else goes to the central list |
| ThreadCaches.FetchGrowthBounds | src/thread_cache.rs:363-374 | the bound grows by one below the batch size, then to the rounded-down next multiple of the batch, capped; it stays in 1..MAX |
| ThreadCaches.ReleaseAdjustBounds | src/thread_cache.rs:346-357 | the release adjustment keeps the bound in range and the overage count at most MAX_OVERAGES |
| ThreadCaches.ScavengeShrinkBounds | src/thread_cache.rs:413-417 | a scavenge never raises a bound and never pushes one below the batch size |
| ThreadCaches.ScavengeTakenBounds | src/thread_cache.rs:390-395 | a scavenge takes at most the low-water mark, and at least one object when the mark is positive |
| ThreadCaches.NumToMoveBounds | src/thread_cache.rs:280 | the fetch request is at least one and at most the bound and the batch |
| ThreadCaches.FreeList.Pop | src/thread_cache.rs:52-62 | nothing from an empty list; otherwise the head, with the low-water mark following the length down |
| ThreadCaches.FreeList.Push | src/thread_cache.rs:65-69 | the object becomes the head |
| ThreadCaches.FreeList.PushBatch | src/thread_cache.rs:72-88 | a chain goes in front in its own order |
| ThreadCaches.FreeList.PopBatch | src/thread_cache.rs:91-107 | up to count objects come off the head, returned reversed as a chain |
| ThreadCaches.ScavengeStep | src/thread_cache.rs:388-421 | one more pass of scavenge's loop |
| ThreadCaches.ThreadCache.NewConst | src/thread_cache.rs:128-134 | every list empty with bound one, nothing cached and no budget |
| ThreadCaches.ThreadCache.New | src/thread_cache.rs:136-145 | as new_const, with the per-thread minimum claimed from the shared pool |
| ThreadCaches.ThreadCache.Init | src/thread_cache.rs:155-158 | claims the minimum per-thread budget from the shared pool |
| ThreadCaches.ThreadCache.IsInitialized | src/thread_cache.rs:149-151 | the thread has claimed a budget |
| ThreadCaches.ThreadCache.IncreaseCacheLimit | src/thread_cache.rs:430-449 | takes STEAL_AMOUNT from the pool when it has that much; otherwise nothing changes |
| ThreadCaches.ThreadCache.FetchFromCentral | src/thread_cache.rs:267-305 | asks for min(bound, batch) objects; the first goes to the caller and the rest to the list; the bound grows |
| ThreadCaches.ThreadCache.ReleaseToCentral | src/thread_cache.rs:313-358 | a batch (or the whole list) goes from the front of the list to the transfer cache; the bound is adjusted |
| ThreadCaches.ThreadCache.Allocate | src/thread_cache.rs:208-225 | the head of the class's list when there is one, with totalSize down by one object; on a miss the fetched batch's first object goes to the caller and the rest becomes the list, totalSize counting exactly those, the bound grown and the low-water mark kept; nothing comes back exactly when the fetch got nothing |
| ThreadCaches.ThreadCache.Deallocate | src/thread_cache.rs:233-260 | the object goes in front; when the pushed list is over its bound the intermediate state is that list after Released (a batch off the front, the bound adjusted) and totalSize less that batch's bytes; when that total exceeds the budget every list of class 1 and up is Scavenged and the budget grows by STEAL_AMOUNT if the pool has it, otherwise the intermediate state is final |
| ThreadCaches.FreeList.Released | src/thread_cache.rs:313-358 | a release takes min(batch, length) objects off the front, keeps the low-water mark and applies the release adjustment to the bound; an empty list is left alone |
| ThreadCaches.ThreadCache.ReleaseIfLong | src/thread_cache.rs:249-254 | an over-long list becomes its Released form and totalSize drops by the released bytes; otherwise nothing changes |
| ThreadCaches.ThreadCache.ScavengeIfOver | src/thread_cache.rs:257-259 | over budget every list is Scavenged and the budget may grow; otherwise nothing changes |
| ThreadCaches.ThreadCache.Rebalance | src/thread_cache.rs:248-259 | the release step then the scavenge step, with the intermediate lists and total named |
| ThreadCaches.ThreadCache.ScavengeClass | src/thread_cache.rs:389-420 | half the low-water mark (at least one) goes back, the bound shrinks, and a new epoch starts |
| ThreadCaches.ThreadCache.Scavenge | src/thread_cache.rs:381-426 | every list gives back half of what sat unused and has its bound shrunk; then the budget may grow |
| ThreadCaches.ThreadCache.FlushAndDestroy | src/thread_cache.rs:166-199 | every list goes back whole and the budget returns to the pool |
| PerCpu.Layout | rseq/src/percpu.rs:113-123 | each class's slot range lies after the headers, inside the layout, and below the next class's range |
| PerCpu.FitsInU16 | rseq/src/percpu.rs:121-138 | with a shift of at most 18 a fitting layout keeps every begin and end below 2^16 |
| PerCpu.PopAfterPush | rseq/src/percpu.rs:203-399 | LIFO: a successful push is undone by the next pop |
| PerCpu.PopBatchIsPops | rseq/src/percpu.rs:411-434 | pop_batch moves what count single pops would, in the same order |
| PerCpu.PushBatchIsPushes | rseq/src/percpu.rs:443-465 | push_batch moves what single pushes of the first count pointers would |
| PerCpu.BatchRoundTrip | rseq/src/percpu.rs:411-465 | pushing a batch that fits and popping as many gives it back reversed, with the stack as it was |
| PerCpu.EmptyHeaders | rseq/src/percpu.rs:131-141 | every header of every CPU gets current = begin and end = begin + capacity |
| PerCpu.PerCpuSlab.constructor | rseq/src/percpu.rs:80-87 | an uninitialised slab with all begins zero |
| PerCpu.PerCpuSlab.Length | rseq/src/percpu.rs:174-180 | the number of pointers cached for the class on the CPU |
| PerCpu.PerCpuSlab.Capacity | rseq/src/percpu.rs:183-189 | the capacity init gave the class |
| PerCpu.PerCpuSlab.Init | rseq/src/percpu.rs:106-147 | fails iff the layout needs more than 2^shift bytes; otherwise every stack is empty with its class's capacity |
| PerCpu.PerCpuSlab.LayBegins | rseq/src/percpu.rs:115-123 | the begin offset of every class and the end of the layout |
| PerCpu.PerCpuSlab.Pop | rseq/src/percpu.rs:203-293 | None when empty; otherwise the top pointer, removed; nothing else changes |
| PerCpu.PerCpuSlab.Push | rseq/src/percpu.rs:306-399 | refused when full; otherwise the pointer goes on top; nothing else changes |
| PerCpu.PerCpuSlab.PopBatch | rseq/src/percpu.rs:411-434 | min(count, length) pointers come off, the top one first |
| PerCpu.PerCpuSlab.Lower | rseq/src/percpu.rs:427-431 | the copy loop lowers current by n and returns the slots below the old current, top first; no other header moves |
| PerCpu.PerCpuSlab.PushBatch | rseq/src/percpu.rs:443-465 | the first min(count, room) pointers go on in order |
| Allocator.MaskDown | src/allocator.rs:419 | x & !(a-1) is x rounded down to a multiple of a |
| Allocator.RouteAlloc | src/allocator.rs:154-184 | zero-byte requests, and only they, get the dangling alignment back; a small route names a real class |
| Allocator.RouteSmall | src/allocator.rs:164-181 | a small route names the smallest class covering the request (and the alignment, when it exceeds 8) |
| Allocator.RouteLarge | src/allocator.rs:164-183 | the page heap gets exactly the non-empty requests no class can take, too big or over-aligned |
| Allocator.SmallObjectAligned | src/allocator.rs:172-179 | an object of a small route's class, carved in a page-aligned span, meets the requested alignment |
| Allocator.PageAligned | src/allocator.rs:172-179 | a page boundary is aligned to every power of two up to a page |
| Allocator.SmallAlignDivides | src/allocator.rs:172-179 | every class size is a multiple of every power of two up to 8, so the small path meets alignments up to 8 |
| Allocator.OffsetAligned | src/allocator.rs:172-179 | object i of a class is aligned to every power-of-two divisor of the class size up to a page |
| Allocator.TrimOf | src/allocator.rs:409-421 | the aligned block is the first multiple of align in the span; prefix + block + suffix are the span's pages |
| Allocator.AllocPageAligned | src/allocator.rs:393-404 | a span of exactly ceil(size / PAGE_SIZE) pages (more only when the span-struct slab is exhausted), class 0, registered on every page; null when the heap fails |
| Allocator.AllocOverAligned | src/allocator.rs:406-454 | size_pages + align_pages - 1 pages are taken; the block keeps size_pages at an aligned start and the trim goes back |
| Allocator.AllocLarge | src/allocator.rs:386-455 | the block is aligned as asked, inside a span that holds the request |
| Allocator.BlockFreeable | src/allocator.rs:199-210 | a block alloc_large handed out is one that dealloc gives back to the heap |
| Allocator.Dealloc | src/allocator.rs:187-211 | nothing for zero bytes or an unknown page; the span's own class picks the small tiers; class 0 goes to the page heap |
| Allocator.LargeRoundTrip | src/allocator.rs:386-455 | a large allocation followed by its dealloc leaves the handed-out spans as they were |
| Allocator.AllocFromCentral | src/allocator.rs:357-371 | one object from the class's central list, or null when it has none |
| Allocator.DeallocToCentral | src/allocator.rs:373-382 | the object goes back as a chain of one |
| Allocator.CentralRoundTrip | src/allocator.rs:357-382 | an object taken from the central tier and handed back leaves the outstanding set as it was |
| Allocator.ReallocInPlace | src/allocator.rs:221-264 | the old pointer is kept iff there is an old block, the new size is non-zero and it fits in the real usable size; a move copies the whole old block |
| Allocator.ReallocKeepsContents | src/allocator.rs:238-263 | for a block alloc handed out, no byte the new size can hold is lost |
| Allocator.OldUsable | src/allocator.rs:238-249 | the caller's size when no span is found; otherwise a whole number of 8-byte units, and of pages for a class-0 span |
| Allocator.PlanRealloc | src/allocator.rs:221-264 | a plain alloc exactly for a null or empty old block; a dealloc handing back the alignment exactly for new size 0; a move copies fewer bytes than the new size |
| Allocator.ShrinkThenGrowStays | src/allocator.rs:234-254 | after an in-place shrink, growing back to the block's real size stays in place |
| Allocator.FlushAtMostOnce | src/allocator.rs:83-121 | a thread's cache is flushed at most once, and the slot ends destroyed after it |
| Allocator.DestroyedStays | src/allocator.rs:283-318 | a destroyed slot stays destroyed and sends every small request to the central tier |
| Allocator.TlsSlot.EnterAllocSmall | src/allocator.rs:285-306 | active uses the cache; uninitialised is initialised first; destroyed goes to the central tier |
| Allocator.TlsSlot.EnterDeallocSmall | src/allocator.rs:309-318 | only an active slot's cache takes the object; the state does not change |
| Allocator.TlsSlot.Destroy | src/allocator.rs:83-94 | an active slot is marked destroyed before the flush; other states are left alone |
| BenchSummary.Find | bench/benches/alloc_bench.rs:583-587 | str::find: the first occurrence of the pattern |
| BenchSummary.TrimStart | bench/benches/alloc_bench.rs:588 | trim_start: leading whitespace removed, nothing else |
| BenchSummary.FindAny | bench/benches/alloc_bench.rs:589 | the first index holding ',' or '}' |
| BenchSummary.TrimKeeps | bench/benches/alloc_bench.rs:590 | trim leaves no whitespace at either end and only input characters |
| BenchSummary.ReadEstimate | bench/benches/alloc_bench.rs:580-591 | the trimmed field after the first "point_estimate" following the first "median", up to ',' or '}' |
| BenchSummary.ReadEstimateOf | bench/benches/alloc_bench.rs:580-591 | round trip: a file laid out around a value gives that value back |
| BenchSummary.UnitChoice | bench/benches/alloc_bench.rs:569-577 | ms from 10^6 ns, us from 10^3 ns, ns below; the scaled number is at least 1 for us and ms, and below 1000 for ns and us |
| BenchSummary.ColorsDistinct | bench/benches/alloc_bench.rs:553-567 | every known allocator but "system" has its own terminal colour; unknown names get white |
| BenchSummary.SvgColorsDistinct | bench/benches/alloc_bench.rs:743-757 | every known allocator has its own plot colour, never criterion's default blue |
| BenchLayout.CollectKeys | bench/benches/alloc_bench.rs:611-667 | the collection loops give exactly the timings of the listed tree, in walk order |
| BenchLayout.CollectAllocs | bench/benches/alloc_bench.rs:623-666 | the loop over one group's allocator directories |
| BenchLayout.CollectParams | bench/benches/alloc_bench.rs:651-665 | the loop over one allocator's parameter directories |
| BenchLayout.KeysAre | bench/benches/alloc_bench.rs:614-667 | a timing is collected iff it comes from a counted allocator directory of a counted group |
| BenchLayout.KeysSkipReport | bench/benches/alloc_bench.rs:616-653 | no key names a "report" directory at any level |
| BenchLayout.DirectKeyed | bench/benches/alloc_bench.rs:629-645 | a directory with new/estimates.json directly is keyed with the empty parameter, and its parameter dirs are not read |
| BenchLayout.ParamKeyed | bench/benches/alloc_bench.rs:647-665 | otherwise each parameter directory is its own key |
| BenchLayout.Bucket | bench/benches/alloc_bench.rs:636-663 | the (allocator, time) pairs of one key, in push order: a pair is in the bucket exactly when some entry with that key carries it |
| BenchLayout.Picks | bench/benches/alloc_bench.rs:636-663 | the positions of the entries pushed under one key: each keyed, strictly increasing, and every keyed position present |
| BenchLayout.BucketFollowsPicks | bench/benches/alloc_bench.rs:636-663 | the bucket's k-th pair is the k-th keyed entry's (allocator, time): one pair per entry, none lost or repeated, in push order |
| BenchLayout.KnownOnly | bench/benches/alloc_bench.rs:697-700 | exactly the results of known allocators, each as often as it was pushed |
| BenchLayout.SortKeeps | bench/benches/alloc_bench.rs:701 | the sort gives an ascending permutation |
| BenchLayout.RankedIs | bench/benches/alloc_bench.rs:697-705 | the known allocators' results, fastest first; the key is skipped iff none is known |
| BenchRecolor.Split | bench/benches/alloc_bench.rs:826 | str::split: at least one piece, none holding the separator, joined back to the input |
| BenchRecolor.SplitJoin | bench/benches/alloc_bench.rs:826 | splitting joined pieces gives them back |
| BenchRecolor.LabelAlloc | bench/benches/alloc_bench.rs:824-831 | a label names an allocator only when it is known |
| BenchRecolor.LabelOf | bench/benches/alloc_bench.rs:826-831 | `group/alloc[/...]` names alloc exactly when alloc is known |
| BenchRecolor.NoSlashNoLabel | bench/benches/alloc_bench.rs:827 | a label without '/' names nothing |
| BenchRecolor.TagText | bench/benches/alloc_bench.rs:823-824 | the text between the first '>' and the closing tag, or None when no '>' precedes it |
| BenchRecolor.TagLabel | bench/benches/alloc_bench.rs:817-833 | a tag adds at most one label, always a known allocator |
| BenchRecolor.ScanLabels | bench/benches/alloc_bench.rs:808-838 | the loop finds exactly the labels of the successive closed text tags, in order, all known |
| BenchRecolor.Closest | bench/benches/alloc_bench.rs:868-870 | the first label at the least distance; None only when there are no labels |
| BenchRecolor.ReplaceAll | bench/benches/alloc_bench.rs:875-876 | str::replace; text without the pattern comes back unchanged |
| BenchRecolor.ReplaceOne | bench/benches/alloc_bench.rs:875-876 | a single occurrence is replaced in place |
| BenchRecolor.RecolorTag | bench/benches/alloc_bench.rs:856-884 | a tag without a points attribute is kept; any change is a repaint in some label's colour (which label: BenchRecolor.RecolorNearest) |
| BenchRecolor.Repaint | bench/benches/alloc_bench.rs:873-876 | both spellings of the default blue are replaced; a tag with neither is unchanged |
| BenchRecolor.RepaintLower | bench/benches/alloc_bench.rs:876 | a polygon filled once in the lower-case spelling gets exactly that fill replaced |
| BenchRecolor.RepaintUpper | bench/benches/alloc_bench.rs:875 | a polygon filled once in the upper-case spelling gets exactly that fill replaced, the rest of the tag kept, when the result holds no lower-case spelling |
| BenchRecolor.RecolorNearest | bench/benches/alloc_bench.rs:866-876 | a polygon whose first point has a y, given at least one label, is repainted in the colour of the label nearest that y, the first such label on a tie |
| BenchRecolor.RecolorNoY | bench/benches/alloc_bench.rs:857-881 | a polygon whose points give no first y is kept as it is |
| BenchRecolor.FirstTokenShape | bench/benches/alloc_bench.rs:860-862 | split_whitespace().next(): None exactly for blank text; otherwise a non-empty run of non-space characters preceded only by whitespace and followed by whitespace or the end |
| BenchRecolor.NoLabelsKeepTag | bench/benches/alloc_bench.rs:857-885 | without labels no polygon changes |
| BenchRecolor.PolygonEnd | bench/benches/alloc_bench.rs:851-854 | the tag ends just after the next "/>", inside the text |
| BenchRecolor.NoLabelsKeepText | bench/benches/alloc_bench.rs:846-890 | with no labels the text comes back unchanged |
| BenchRecolor.RecolorPolygons | bench/benches/alloc_bench.rs:846-890 | the polygon loop computes the recoloured text |
| BenchRecolor.RecolorSvg | bench/benches/alloc_bench.rs:805-892 | None iff the plot has no known label (the file is left alone); otherwise the recoloured text |
| BenchRecolor.TagTextAsWritten | bench/benches/alloc_bench.rs:823-824 | the slice as written: a panic when the first '>' lies inside the closing tag |
| BenchRecolor.TagTextAgrees | bench/benches/alloc_bench.rs:823-824 | the corrected and as-written slices agree whenever the opening tag is closed by '>' |
| BenchRecolor.TagTextPanics | bench/benches/alloc_bench.rs:823-824 | on `<text y="1"</text>` the program panics and the model skips the tag |
| BenchRecolor.PolygonEndAsWritten | bench/benches/alloc_bench.rs:851-854 | the slice as written: a panic when "/>" is missing |
| BenchRecolor.PolygonEndAgrees | bench/benches/alloc_bench.rs:851-854 | both agree whenever the polygon is closed with "/>" |
| BenchRecolor.PolygonEndPanics | bench/benches/alloc_bench.rs:851-854 | an unclosed `<polygon ` at the end makes the program's slice run past the end |

## Left out

- Concurrency. Every lock (`SpinMutex`), atomic and per-CPU critical
  section is modelled as one sequential step. The `*_dropping_lock`
  variants are modelled without their lock drops, so no interleaving with
  other threads is covered.
- Integer widths and overflow. The source's `usize`, `u32`, `u16` and
  `u64` arithmetic is unbounded `nat` in the model. This covers:
  - build.rs `size * 8` and `page_size * 4`;
  - the `u32` `max_length`, `low_water_mark` and `length_overages` of the
    thread cache;
  - the `u64` counters and products of src/histogram.rs:166-185;
  - `total_pages` in alloc_large;
  - the `isize` budget.

  Wrap-around is not modelled.
- ThreadCaches.Budget: the compare-exchange retry loop of
  `increase_cache_limit` and the atomic `UNCLAIMED_CACHE_SPACE` are a plain
  integer field. Retries under contention are not modelled.
- Histogram.GreedyStops: the code's merge loop stops at the first cheapest
  merge that is too wasteful (src/histogram.rs:174-176), while its
  documentation (src/histogram.rs:127-131) says such a merge is skipped and
  merging stops only when every merge is too wasteful. Histogram.MergeRanges
  and Histogram.OptimalLayout follow the code; the documented rule is
  Histogram.GreedySkip, which the layout does not use (see Findings).
- Histogram.OptimalLayout: the `f64` waste percentage is the rational
  `wasteNum / wasteDen`, and the comparison is made exactly. Rounding of
  `f64` is not modelled.
- Histogram.SuggestClasses: the coverage fraction is clamped and applied to
  the total in `f64` by the source. The model takes the target count as an
  integer parameter.
- `print_report`, `export_toml`'s reading of the live counters, the stats
  counters and `hist_record!` are output or instrumentation. They are not
  modelled.
- PageMaps.PageMap.Set requires `p < PAGE_ID_LIMIT` (2^35). This excludes
  the assertion panic at src/pagemap.rs:103 instead of modelling it.
- Page map nodes are allocated lazily from the OS, and the source panics
  when that allocation returns null (src/pagemap.rs:108-118 and 167-181).
  In the model the nodes are values inside the root array, so allocation
  always succeeds. Node identity and in-place update of a shared node are
  not modelled.
- Platform.PageSource is an oracle that hands out page ids upward from a
  frontier, like a bump allocator. A real `mmap` may return memory below or
  next to earlier regions.
  - PageHeaps.PageHeap.Adopt and PageHeaps.PageHeap.AdoptRegion require
    every live span to end at or below the new region, which holds only
    for this oracle.
  - Coalescing across the boundary between two OS regions is therefore not
    covered.
- PageHeaps.PageHeap.DeallocateSpan states the merged span's run and that
  every other live span keeps its run, but not where on its list the merged
  span goes (PageHeaps.PageHeap.InsertFree states that for the last step).
  Neither it nor PageHeaps.PageHeap.CarveSpan states the page-map entries
  of the spans it does not touch; the invariant implies them.
- The page heap's free lists and large list are sequences of span
  references. The intrusive `prev`/`next` rewiring that SpanList does on
  them in the source (src/span.rs:97-143) is modelled on its own
  (Spans.SpanList), not inside the page heap.
- Allocator.PlanRealloc: a Grow step stands for alloc, then copy and
  dealloc only when the alloc succeeds. When the alloc returns null the
  source returns null and keeps the old block (src/allocator.rs:258-263);
  the plan does not carry the alloc's outcome.
- `page_decommit` and `page_recommit` (src/platform.rs:54-75) are unused by
  the core and are not modelled. `page_dealloc` ignores the OS result.
- Allocator.AllocOverAligned differs from the source in ordering: the
  prefix run is handed back to the page heap after the main span is
  re-registered, while the source returns it before. Both orders make the
  same merge decisions, because the prefix's right neighbour is never a
  free span. Also:
  - when `alloc_span` fails for the prefix or the suffix, those pages leak
    in the source; in the model they stay outside every span;
  - the model registers every page of a trimmed run rather than its two
    ends.
- Allocator: the build variants are separate. The `percpu` feature's
  `cpu_cache` glue, the `std` build's `TC_CELL` and the no-std central-only
  path are not composed into one allocator. The nightly TLS slot is
  modelled as its state machine (Allocator.TlsSlot), and its cache is not
  linked to the thread-cache class. The small tiers are modelled by
  ThreadCaches.ThreadCache.Allocate/Deallocate and
  Allocator.AllocFromCentral/DeallocToCentral.
- `alloc_zeroed` only adds zero-filling to `alloc`, and memory contents are
  not modelled. realloc is modelled as a plan (Allocator.PlanRealloc):
  which of alloc, stay, copy-and-free or free it performs, and how many
  bytes it copies. The copy itself is not modelled.
- PerCpu: the rseq restartable sequences, the CPU-id read and the
  `SlabHeader` packing are left out. The CPU is a parameter of each
  operation.
  - Begins and header fields are unbounded numbers. PerCpu.FitsInU16 shows
    that they stay below 2^16 for a shift of at most 18.
  - Above that shift the source's `as u16` casts could truncate, and that
    case is not modelled.
- PerCpu.PerCpuSlab.Pop and PerCpu.PerCpuSlab.Push model the committed
  effect of the assembly sequences. Their abort-and-retry path is not
  modelled.
- CentralFreeLists.CentralFreeList.Detach models the skip of an object
  whose page maps to nothing (src/central_free_list.rs:109-111). An object
  whose page does map to a span must be out with this list and lie in that
  span. The source does not check this, and a foreign pointer would corrupt
  the span's free chain.
- Bench:
  - File reading and writing, directory walking (`read_dir`, `exists`,
    `is_dir`), terminal printing with bars and `env!` paths are left out.
    The listed result tree is an input (BenchLayout.GroupDir).
  - A `read_dir` failure (the source skips that directory) is modelled as
    an empty listing.
  - `f64` parsing is a parameter (`parseY`), and estimates are reals.
  - The `unwrap` of `partial_cmp` on NaN is not modelled.
  - `trim` and `split_whitespace` use ASCII whitespace, where the source
    uses Unicode whitespace.
  - Byte offsets and character indices coincide (ASCII text).
  - The BTreeMap order of the printed summary is not modelled.
- BenchLayout.SortKeeps: the ranking is proved sorted and a permutation of
  the known results. That `sort_by` is stable is not stated.
- BenchRecolor.Repaint: the exact result is proved for a tag with one fill
  in either spelling (BenchRecolor.RepaintLower, BenchRecolor.RepaintUpper).
  A tag with several fills, or with both spellings, is described only by
  the definition of BenchRecolor.ReplaceAll.
- build.rs `main`, `generate_config` and the TOML parsing of the
  configuration file read and write files. The parsed configuration is an
  input, and the generated constants are the ones in config.dfy.

## Findings

| source | as written | input that shows it | evidently intended | confidence | as-written member | corrected member |
|---|---|---|---|---|---|---|
| src/histogram.rs:174-176 | the merge loop `break`s as soon as the cheapest adjacent merge is too wasteful, so merging stops above max_classes although another merge is within the limit; the documentation at lines 127-131 says that merge is skipped | buckets 0, 7 and 511 holding 10, 1 and 1000 allocations, max_classes 2, max_waste_pct 0.125: three classes remain | skip the too-wasteful merge and take the cheapest one within the limit, stopping only when every merge is too wasteful | not executed | Histogram.GreedyBreaksEarly | Histogram.GreedySkip |
| bench/benches/alloc_bench.rs:851-854 | when a `<polygon ` tag has no `/>`, `unwrap_or(remaining.len() - poly_start)` plus 2 slices 2 bytes past the end and panics | an SVG whose text ends with `<polygon ` | take the rest of the text as the tag | not executed | BenchRecolor.PolygonEndPanics | BenchRecolor.PolygonEnd |
| bench/benches/alloc_bench.rs:823-824 | `tag[gt + 1..tag.len() - 7]` panics when the first `>` of the tag is the one closing `</text>` (start past end) | `<text y="1"</text>` | skip a text tag whose opening tag is not closed | not executed | BenchRecolor.TagTextPanics | BenchRecolor.TagText |
