# Verification of AetherMind's core

Dafny models of the most intricate parts of AetherMind, with proofs of what they promise. Each module stands
beside one component and follows its control flow: loops stay loops, objects that change in place stay objects,
and code that runs under atomics or locks becomes a state machine whose steps any number of threads interleave.

| files | component |
|---|---|
| `Substring`, `CriticalFactorization`, `BasicStringFind` | `BasicString` search: naive, hybrid and the Two-Way algorithm of Crochemore and Perrin |
| `StringFind` | `String` search: naive, Knuth-Morris-Pratt, Boyer-Moore |
| `HugePageCache` | the lock-free cache of huge pages: two Treiber stacks with tagged heads |
| `PageMap` (module `RadixPageMap`), `PageMapReaders` | the lazily built four-level radix page map, and its lock-free readers |
| `PageCacheShard` | span allocation, splitting, coalescing, and the scavenger |
| `Span` (module `SpanBitmap`), `SizeClass` | the bitmap allocator inside a span; size classes |
| `ObjectFlow` | the central cache and the thread caches of one size class |
| `Layers` | page map and span bitmap as the layers above them see them |
| `DenseMapList`, `DenseMapChains`, `DenseMapReach`, `DenseMap` | the dense hash map with its iteration list |
| `DenseMapGrowth`, `DenseMapLoss`, `DenseMapOffsets` | growing the dense hash map, and what that can lose |
| `RefCount` | strong and weak intrusive reference counts |
| `StringCore`, `StringGrowth` | the small-string core and its growth policy |
| `Tensor` (module `Tensors`) | shapes, strides, contiguity, storage ranges and slices |

`dafny verify dfyconfig.toml` checks everything.

What the proofs rest on: memory is sequentially consistent; what the system, the clock and the metadata pools
return is a parameter; keys and values of the map are integers and its home slot is an arbitrary function of the
key; 64-bit arithmetic is written out wherever the code checks it or relies on it.

## Findings

Properties that fail for some inputs are stated with the exact condition under which they hold.

- The Boyer-Moore tables are built from the buffer up to its first NUL, not from the count passed along. The search
  is right on all texts exactly for count 0 and for counts inside the C string whose table shifts are non-negative
  and pass over no shift that fits. The full length and count 1 always qualify. Any other count inside the C string
  has a text with a missed occurrence, and a negative shift wraps. A count beyond the first NUL has a text that makes
  a lookup run past the tables.
- The tag of the huge-page stacks has 48 bits. A pop is safe if fewer than 2^48 updates happen between its load and
  its exchange. A run of four threads shows a pop at exactly 2^48 that installs a slot in another thread's hands.
- The bitmap of a span has one word too few exactly when the byte total is 64bs + 8b + s with an even number b of
  words and object size s. One page of one 4096-byte object is such a total. No size class is, although the smallest
  comes close.
- Appending a stretch of the string's own buffer that includes the terminator, while growing, copies between
  overlapping ranges, so the last byte of the result may be anything. The comment on `append` promises own ranges up
  to the size only.
- A string whose capacity passes four fifths of the limit can no longer grow, although the size required may be
  below the limit.
- Erasing a map entry returns the position of the next entry as read beforehand. That position is empty afterwards
  exactly when the next entry ended the erased entry's chain; two keys with one home slot are enough.
- Growing the map re-inserts its entries and ignores whether that succeeds, so an entry can be lost while the insertion
  that made the map grow reports success. Nothing is lost while there are at most as many entries as the probes reach
  slots of the grown table, which always holds for tables of up to 64 slots. For every table whose size is a multiple
  of 8192 a run from the empty map loses an entry.
- A scavenger pass reads the clock once. A span released later in the pass has an age that wraps and is taken as idle.
- `set_contiguous` accepts shapes whose element count overflows, on which `is_contiguous` then fails fatally.
- An empty slice whose offset passes the end of the buffer is refused by validation. A slice with elements never is.
- `MaximalSuffix` restarts at j - k + 1 where the usual formulation goes back to the last repetition. It still finds
  the maximal suffix and its smallest period.

## Model

| member | source | states |
|---|---|---|
| `CriticalFactorization.CriticalFactorizationTheorem` | include/amstring/basic_string.hpp:551-555 | for the two maximal suffixes under opposite orders, every local period at the later start is a period of the whole word |
| `CriticalFactorization.LocalPeriodExceedsLeftPart` | include/amstring/basic_string.hpp:551-555 | every local period at the start of a maximal suffix is longer than the part before it |
| `CriticalFactorization.RepeatedStretchGivesPeriod` | include/amstring/basic_string.hpp:551-555 | when the stretch between the two maximal-suffix starts repeats s further on, s is a period of the right part |
| `CriticalFactorization.ShortPeriodIsRightPeriod` | include/amstring/basic_string.hpp:557-561 | a period of the word no longer than its right part forces the smallest period of the right part on the whole word |
| `CriticalFactorization.MaximalSuffixDominates` | include/amstring/basic_string.hpp:524-549 | position-wise form of being the greatest suffix: every other suffix is a prefix of it or falls below it at the first difference |
| `BasicStringFind.MaximalSuffix` | include/amstring/basic_string.hpp:524-549 | returns the start of the greatest suffix under the chosen order together with that suffix's smallest period, and terminates although it restarts at j - k + 1 |
| `BasicStringFind.ScanDescends` | include/amstring/basic_string.hpp:543-545 | when the unit falls below the one expected, the whole stretch read so far becomes the smallest period |
| `BasicStringFind.ScanMatches` | include/amstring/basic_string.hpp:537-538 | a matching unit keeps the smallest period |
| `BasicStringFind.ScanRestarts` | include/amstring/basic_string.hpp:539-542 | when the unit rises above the one expected, every start before j - k + 1 is beaten, so restarting there loses nothing |
| `BasicStringFind.ComputeCriticalFactorization` | include/amstring/basic_string.hpp:551-555 | the position chosen is critical, and the period returned is the smallest of the right part |
| `BasicStringFind.PeriodTestIsExact` | include/amstring/basic_string.hpp:557-561 | the comparison of the left part with its shift holds exactly when the period is a period of the whole needle |
| `BasicStringFind.RightMismatchSkip` | include/amstring/basic_string.hpp:583-587 | after a mismatch at j in the right part there is no occurrence at any of the j - critical_pos + 1 starts skipped |
| `BasicStringFind.PeriodicShiftSkip` | include/amstring/basic_string.hpp:589-599 | after the right part matched, shifting a periodic needle by its period skips no occurrence |
| `BasicStringFind.ShiftByPeriodRemembers` | include/amstring/basic_string.hpp:598-599 | after that shift the first \|needle\| - period units are known to match: what the memory variable records |
| `BasicStringFind.AperiodicShiftSkip` | include/amstring/basic_string.hpp:605-629 | after the right part matched and the left part did not, the shift max(critical_pos, rest) + 1 of an aperiodic needle skips no occurrence |
| `BasicStringFind.NearOccurrenceGivesPeriod` | include/amstring/basic_string.hpp:605-629 | when the right part is matched, an occurrence closer than that shift gives the needle the period of its right part |
| `BasicStringFind.TwoWayPeriodic` | include/amstring/basic_string.hpp:574-603 | least occurrence at or after pos, or none, for needles with the short period, with the memory of the matched prefix |
| `BasicStringFind.TwoWayAperiodic` | include/amstring/basic_string.hpp:605-629 | least occurrence at or after pos, or none, for the other needles |
| `BasicStringFind.FindRangeTwoWay` | include/amstring/basic_string.hpp:563-630 | least occurrence at or after pos, or none |
| `BasicStringFind.FindUnit` | include/amstring/basic_string.hpp:468-472 | first position of one unit in a stretch, or none |
| `BasicStringFind.FindRangeNaive` | include/amstring/basic_string.hpp:458-481 | least occurrence at or after pos, or none |
| `BasicStringFind.CandidateMatches` | include/amstring/basic_string.hpp:502-513 | the last-unit test followed by the comparison holds exactly at occurrences |
| `BasicStringFind.FindRangeHybrid` | include/amstring/basic_string.hpp:483-522 | least occurrence at or after pos, or none, also when it gives up after 16 failed candidates and hands over to Two-Way |
| `BasicStringFind.FindRange` | include/amstring/basic_string.hpp:436-456 | for every haystack, needle and start: the least occurrence at or after pos, or none; an empty needle is found at pos when pos is inside |
| `Substring.FirstIsUnique` | include/amstring/basic_string.hpp:436-456 | at most one answer is the least occurrence, so all search routines agree |
| `StringFind.NaiveSearch` | src/container/string.cpp:565-599 | least occurrence at or after pos, or none |
| `StringFind.BuildNext` | src/container/string.cpp:625-638 | entry i is the length of the longest proper border of the first i + 1 characters |
| `StringFind.NextBorder` | src/container/string.cpp:625-638 | the borders of a prefix below a border are exactly the borders of that border |
| `StringFind.FallBack` | src/container/string.cpp:640-655 | falling back to the longest border loses no occurrence that overlaps the matched prefix |
| `StringFind.KMPSearch` | src/container/string.cpp:615-656 | least occurrence at or after pos, or none |
| `StringFind.CreateBadCharRule` | src/container/string.cpp:460-474 | the table holds exactly the characters of the needle, each with its last index |
| `StringFind.MatchBackwards` | src/container/string.cpp:483-488 | where comparing backwards from i and from the end stops, it delimits the one strong match ending at i |
| `StringFind.TablesStep` | src/container/string.cpp:490-495 | recording that match extends both tables from the matches ending before i to those ending at i |
| `StringFind.CreateGoodSuffixRule` | src/container/string.cpp:477-499 | suffix[len] is the rightmost strong reappearance of the suffix of that length, -1 when there is none; prefix[len] says whether it is also a prefix |
| `StringFind.ComputeDelta2` | src/container/string.cpp:501-516 | the loop over the prefix table computes the shift function |
| `StringFind.Delta2IsLeastGoodShift` | src/container/string.cpp:501-516 | the shift is positive, compatible with the matched suffix and the mismatch, and no smaller shift is |
| `StringFind.Delta1Skip` | src/container/string.cpp:532-538 | the bad-character shift passes over no occurrence, for every needle that is a prefix of the string the table was built from |
| `StringFind.TablesAreUnique` | src/container/string.cpp:477-499 | the table contract determines the tables, so what follows about the tables as functions is about the tables the program builds |
| `StringFind.TableShiftSkip` | src/container/string.cpp:549-559 | a good-suffix shift that is not negative and not beyond the least shift that fits passes over no occurrence |
| `StringFind.TablesServeWhole` | src/container/string.cpp:518-563 | the tables give only such shifts when the count is the length of the C string, and when it is 1 |
| `StringFind.BoyerMooreScan` | src/container/string.cpp:540-562 | least occurrence at or after pos, or none, and every round shifts, for every count the tables serve |
| `StringFind.BoyerMooreSearch` | src/container/string.cpp:518-563 | least occurrence at or after pos, or none, for every count the tables serve, and for every count when the needle does not fit into the text |
| `StringFind.Find` | src/container/string.cpp:601-613 | all three methods return the least occurrence, Boyer-Moore under the same condition |
| `StringFind.EmbeddedNulOverrunsTables` | src/container/string.cpp:477-516 | for every count beyond the first NUL there is a text of the needle's length on which the run of the search reaches a lookup past the end of the tables |
| `StringFind.MismatchMovesOn` | src/container/string.cpp:549-559 | after a mismatch, the larger of the two shifts moves forward in 64-bit arithmetic and over no occurrence |
| `StringFind.RoundsFindFirst` | src/container/string.cpp:540-562 | for a served count the run of rounds ends, within as many rounds as the text has characters, with the least occurrence |
| `StringFind.PassedOverShiftFails` | src/container/string.cpp:549-559 | a shift beyond one that fits: on the text made of the needle overlapped with itself the first round jumps over an occurrence and past the end |
| `StringFind.NegativeShiftFails` | src/container/string.cpp:501-516 | a negative shift wraps: on the spoilt needle followed by the needle the first round jumps past the end |
| `StringFind.UnservedCountFails` | src/container/string.cpp:518-563 | for every count inside the C string that is not served there is a text whose occurrence the search never returns |
| `StringFind.ServedCountFinds` | src/container/string.cpp:518-563 | for every served count, text and start the search ends with the least occurrence |
| `StringFind.BoyerMooreIsExactIff` | src/container/string.cpp:518-563 | the search is right on every text exactly when the count is 0, or lies inside the C string and every shift the tables give it is non-negative and passes over no shift that fits |
| `StringFind.LongerBufferSkipsOccurrence` | src/container/string.cpp:477-516 | a count that is not served: after a mismatch the first two characters of "aab" are shifted by 2 where 1 fits |
| `StringFind.LongerBufferMayWrap` | src/container/string.cpp:501-516 | a count whose shift is negative: the first two characters of "xyazba" |
| `HugePageCache.StepEffects` | ammalloc/src/page_allocator.cpp:119-150 | every atomic operation writes at most one link, one page, one head and the position of its own thread |
| `HugePageCache.PopInstallsTrueSuccessor` | ammalloc/src/page_allocator.cpp:127-134 | a pop whose compare-and-swap succeeds fewer than 2^48 head updates after the load found the very head it loaded, and installs that slot's current successor: no A-B-A exchange |
| `HugePageCache.Overtaking` | ammalloc/src/page_allocator.cpp:119-150 | while one thread stalls inside a pop, others take both its slots and bring the first back, and a fourth repeats Get and Put any number of times: the same slots, two updates further each time |
| `HugePageCache.WrappedTagAllowsAba` | ammalloc/src/page_allocator.cpp:96-98 | the bound is sharp: a run of four threads with three pages, all of whose steps are timely, leads to a pop exactly 2^48 updates after its load that succeeds and installs a slot another thread holds |
| `HugePageCache.OthersUndisturbed` | ammalloc/src/page_allocator.cpp:119-150 | no step touches a slot another thread holds or invalidates what another thread has correctly read |
| `HugePageCache.StepKeepsStacks` | ammalloc/src/page_allocator.cpp:119-150 | both heads keep starting a chain of distinct slots that ends in the invalid index, changed by the step as a stack would be |
| `HugePageCache.StepKeepsPartition` | ammalloc/src/page_allocator.cpp:119-150 | free stack, used stack and slots in threads' hands stay a partition of all slots; no slot is held twice |
| `HugePageCache.StepKeepsInv` | ammalloc/src/page_allocator.cpp:119-150 | every timely step of every thread keeps the whole invariant |
| `HugePageCache.InitialInv` | ammalloc/src/page_allocator.cpp:108-115 | the constructor establishes it with all slots free |
| `HugePageCache.EmptyMeansEmpty` | ammalloc/src/page_allocator.cpp:122-125 | a Get that reports an empty cache saw an empty used stack at that moment |
| `HugePageCache.StepRefinesStack` | ammalloc/src/page_allocator.cpp:44-66 | each step is one step, or none, of a last-in first-out stack of pages |
| `HugePageCache.RunIsLinearizable` | ammalloc/src/page_allocator.cpp:44-66 | for every interleaving of any number of threads there is a history of that stack with the same events and the final contents |
| `HugePageCache.PagesConserved` | ammalloc/src/page_allocator.cpp:44-66 | in every such history the pages stored are the pages taken plus the pages cached: each stored page is handed out at most once |
| `HugePageCache.GetReturnsTakenPage` | ammalloc/src/page_allocator.cpp:44-53 | a Get returns the page it took, whatever other threads do before it returns |
| `HugePageCache.CachedPagesStayAligned` | ammalloc/src/page_allocator.cpp:449-457 | when only aligned pages are put (lines 491-505), every page any Get returns in any run is aligned, so no cached page is dropped by the alignment test |
| `RadixPageMap.SharedPath` | ammalloc/src/page_cache.cpp:21-46 | pages that agree on the bits above a level share the node of that level |
| `RadixPageMap.MissingSubtreeIsEmpty` | ammalloc/src/page_cache.cpp:112-141 | no page below a missing node is mapped, up to the end of the range the skip covers |
| `RadixPageMap.LeafEntryDeterminesPage` | ammalloc/src/page_cache.cpp:21-46 | a leaf entry belongs to one page only |
| `RadixPageMap.LeafStore` | ammalloc/src/page_cache.cpp:92-95 | writing one leaf entry changes the lookup of one page |
| `RadixPageMap.LinkUnderRoot` | ammalloc/src/page_cache.cpp:71-76 | linking a fresh node into an empty root entry changes no lookup |
| `RadixPageMap.LinkUnderLevel1` | ammalloc/src/page_cache.cpp:78-83 | likewise one level down |
| `RadixPageMap.LinkUnderLevel2` | ammalloc/src/page_cache.cpp:85-90 | likewise for a fresh leaf |
| `RadixPageMap.EnsureLevel1` | ammalloc/src/page_cache.cpp:71-76 | the node exists afterwards, is the one on the path, and no lookup changed |
| `RadixPageMap.EnsureLevel2` | ammalloc/src/page_cache.cpp:78-83 | the node exists afterwards, is the one on the path, and no lookup changed |
| `RadixPageMap.EnsureLevel3` | ammalloc/src/page_cache.cpp:85-90 | the node exists afterwards, is the one on the path, and no lookup changed |
| `RadixPageMap.PageMap.GetSpan` | ammalloc/src/page_cache.cpp:12-48 | the map value of the page; null before the root is published and for pages outside the root |
| `RadixPageMap.PageMap.Descend` | ammalloc/src/page_cache.cpp:64-90 | builds the missing path to a page without changing any lookup |
| `RadixPageMap.PageMap.FillLeaf` | ammalloc/src/page_cache.cpp:92-95 | sets exactly the consecutive pages it is told to |
| `RadixPageMap.PageMap.SetSpan` | ammalloc/src/page_cache.cpp:50-98 | afterwards exactly the pages of the span map to it and every other page is as before, across node boundaries and missing subtrees; every round makes progress |
| `RadixPageMap.PageMap.ClearRange` | ammalloc/src/page_cache.cpp:100-152 | afterwards exactly the pages of the range are unmapped and every other page is as before; every skip makes progress |
| `PageMapReaders.LinkKeepsPaths` | ammalloc/src/page_cache.cpp:71-90 | linking a missing node changes no lookup and moves no node that is on any page's path |
| `PageMapReaders.WriterStep` | ammalloc/src/page_cache.cpp:50-152 | each store of the writer keeps all paths and changes the lookup of the page it writes at most |
| `PageMapReaders.LoadIsRight` | ammalloc/src/page_cache.cpp:12-48 | each load keeps the reader on its page's path, and when it answers, the answer is the map value at that moment |
| `PageMapReaders.StepKeepsInv` | ammalloc/src/page_cache.cpp:12-152 | every load of every reader and every store of the writer keeps every reader on the path of its page |
| `PageMapReaders.ReadsAreLinearizable` | ammalloc/src/page_cache.cpp:12-48 | in every interleaving of any number of readers with the writer, each answer of GetSpan is the map value at the step that gives it |
| `PageMapReaders.StableMappingIsFound` | ammalloc/src/page_cache.cpp:12-48 | a page that keeps its span throughout a lookup is found, whatever is mapped and unmapped elsewhere meanwhile |
| `PageCacheShard.LiveSpansDisjoint` | ammalloc/src/page_cache.cpp:159-311 | under the page-map invariant that every operation keeps, no two live spans overlap |
| `PageCacheShard.FirstFitIs` | ammalloc/src/page_cache.cpp:190-202 | characterises the smallest non-empty bucket that fits |
| `PageCacheShard.SplitKeepsStructure` | ammalloc/src/page_cache.cpp:203-227 | splitting keeps page map and buckets exact and the set of mapped pages unchanged |
| `PageCacheShard.MergeKeepsPages` | ammalloc/src/page_cache.cpp:280-297 | absorbing an adjoining free span: the grown span covers exactly both, all other mappings stay right |
| `PageCacheShard.FinishMerge` | ammalloc/src/page_cache.cpp:308-310 | rewriting the mappings of the grown span restores the exact page map |
| `PageCacheShard.GrownBecomesFree` | ammalloc/src/page_cache.cpp:300-310 | freeing the grown span restores the shard invariant, with the union, the settled neighbours and all other spans as they were |
| `PageCacheShard.CoalescedIsUnion` | ammalloc/src/page_cache.cpp:267-310 | the released span consists of its old pages and those of the spans that are gone, and of nothing else |
| `PageCacheShard.Shard.TakeExact` | ammalloc/src/page_cache.cpp:190-195 | the first span of the bucket becomes used and held by the caller; nothing else changes |
| `PageCacheShard.Shard.Split` | ammalloc/src/page_cache.cpp:203-228 | a span of n pages from the start of the first span of the bucket, or nothing changed when there is no metadata |
| `PageCacheShard.Shard.CarveOff` | ammalloc/src/page_cache.cpp:215-227 | the two parts replace the split span; mapped pages are conserved |
| `PageCacheShard.Shard.Refill` | ammalloc/src/page_cache.cpp:232-250 | adds one free span of the largest size over fresh pages |
| `PageCacheShard.Shard.AddOversized` | ammalloc/src/page_cache.cpp:167-186 | adds one used span of n fresh pages |
| `PageCacheShard.Shard.TakeFitting` | ammalloc/src/page_cache.cpp:190-228 | a span of n pages from the start of the first span of the first fitting bucket; without metadata for a split, or without a fitting bucket, nothing is taken |
| `PageCacheShard.Shard.AllocCached` | ammalloc/src/page_cache.cpp:188-251 | succeeds exactly when a bucket serves the request, or one refill does; what callers and scavenger hold is untouched |
| `PageCacheShard.Shard.AllocSpanLocked` | ammalloc/src/page_cache.cpp:159-252 | succeeds exactly when the request is representable and a bucket or the system can serve it; returns a span of n pages from the first fitting bucket that no caller and no scavenger holds; at most one refill; mapped pages only grow by the system's pages; held and detached spans untouched |
| `PageCacheShard.Shard.Absorb` | ammalloc/src/page_cache.cpp:280-283 | takes a free neighbour out of its bucket and adds its pages |
| `PageCacheShard.Shard.MergeLeft` | ammalloc/src/page_cache.cpp:268-284 | ends with a left neighbour that is absent, used or too large to merge |
| `PageCacheShard.Shard.MergeRight` | ammalloc/src/page_cache.cpp:286-298 | ends with such a right neighbour and keeps the left side settled |
| `PageCacheShard.Shard.FreeGrown` | ammalloc/src/page_cache.cpp:300-310 | the coalesced span is free, first in its bucket and mapped on all its pages |
| `PageCacheShard.Shard.Coalesce` | ammalloc/src/page_cache.cpp:267-310 | the result is the union of the merged spans, with both neighbours settled; all spans held or detached are untouched |
| `PageCacheShard.Shard.ReleaseOversized` | ammalloc/src/page_cache.cpp:258-264 | unmaps exactly the pages of the span and forgets it |
| `PageCacheShard.Shard.ReleaseSpanLocked` | ammalloc/src/page_cache.cpp:254-311 | either of the two, with the shard invariant kept |
| `PageCacheShard.Shard.ScavengeDetach` | ammalloc/src/page_heap_scavenger.cpp:57-89 | takes out exactly the committed spans of the bucket whose 64-bit age, wrapped, reaches the threshold, and never meets a used span in a free list: the error branch is unreachable |
| `PageCacheShard.IdleMeansIdle` | ammalloc/src/page_heap_scavenger.cpp:68-76 | for a span last used before the pass began that age is the true idle time |
| `PageCacheShard.LaterReleaseLooksIdle` | ammalloc/src/page_heap_scavenger.cpp:68-76 | a span last used after the pass read the clock counts as idle unless that was almost 2^64 milliseconds later; one used 1 ms later does |
| `PageCacheShard.Shard.DetachOne` | ammalloc/src/page_heap_scavenger.cpp:73-76 | one span leaves its bucket and is marked used |
| `PageCacheShard.Shard.ScavengeRelease` | ammalloc/src/page_heap_scavenger.cpp:93-104 | outside the lock only the commit flag of the detached span changes, with the shard invariant kept |
| `PageCacheShard.Shard.ScavengeReattach` | ammalloc/src/page_heap_scavenger.cpp:109-115 | the span returns to the end of its bucket as free |
| `SpanBitmap.CapacityFitsBitmap` | ammalloc/src/span.cpp:13-26 | the capacity fits the bitmap words for every byte total and object size, except exactly when the total is 64bs + 8b + s for an even number b of words |
| `SpanBitmap.SomeShapesOverflow` | ammalloc/src/span.cpp:13-26 | one page with objects of 4096 bytes, and 64 pages with objects of 2032 bytes, are such totals |
| `SpanBitmap.LayoutInside` | ammalloc/src/span.cpp:19-26 | every object lies after the bitmap and inside the pages |
| `SpanBitmap.ObjectsDisjoint` | ammalloc/src/span.cpp:66-67 | no byte belongs to two objects |
| `SpanBitmap.FillBitmap` | ammalloc/src/span.cpp:28-40 | exactly the first capacity bits are set |
| `SpanBitmap.Span.Init` | ammalloc/src/span.cpp:6-44 | all objects free, nothing in use, for every shape whose capacity fits its bitmap |
| `SpanBitmap.AfterClear` | ammalloc/src/span.cpp:60-64 | clearing a set bit removes one object from the free set and keeps use count plus set bits equal to capacity |
| `SpanBitmap.AfterSet` | ammalloc/src/span.cpp:87-95 | setting a clear bit adds the object back, with the count, and the cursor stays below the first set bit |
| `SpanBitmap.FullMeansNoneFree` | ammalloc/src/span.cpp:48-50 | use count at capacity means that no bit is set |
| `SpanBitmap.Span.AllocObject` | ammalloc/src/span.cpp:46-71 | fails exactly when the span is full; otherwise hands out the lowest free object at its address and removes it from the free set |
| `SpanBitmap.Span.FirstWord` | ammalloc/src/span.cpp:54-58 | starting at the cursor finds the first word with a set bit |
| `SpanBitmap.Span.TakeFrom` | ammalloc/src/span.cpp:60-67 | takes the lowest bit of that word |
| `SpanBitmap.TakeLowest` | ammalloc/src/span.cpp:60-67 | the lowest bit of the first non-empty word is the lowest free object, and removing it keeps count and cursor right |
| `SpanBitmap.ObjectIndex` | ammalloc/src/span.cpp:76-84 | division inverts the address computation |
| `SpanBitmap.Span.FreeObject` | ammalloc/src/span.cpp:73-96 | inverts the allocation of the object: it is free again and the use count drops by one |
| `SizeClass.IndexIsSmallestClass` | ammalloc/include/ammalloc/size_class.h:23-63 | for every size of at least one byte its class is large enough and the class below is not |
| `SizeClass.SizeMonotone` | ammalloc/include/ammalloc/size_class.h:48-63 | class sizes strictly increase |
| `SizeClass.IndexOfSize` | ammalloc/include/ammalloc/size_class.h:23-63 | index inverts size for every class, not only the sampled ones |
| `SizeClass.LastClass` | ammalloc/include/ammalloc/size_class.h:256 | the last class is the one of the largest cached size |
| `SizeClass.ClassSpansFit` | ammalloc/include/ammalloc/size_class.h:304-323 | for every size class, with the pages its span gets, the capacity fits the bitmap |
| `SizeClass.SmallestClassIsClose` | ammalloc/include/ammalloc/size_class.h:304-323 | the class of 8 bytes has a total of the failing form and escapes by its odd number of words |
| `SizeClass.InitSpanForClass` | ammalloc/src/central_cache.cpp:255-267 | the one caller of Init meets its condition for every class |
| `ObjectFlow.MoveConserves` | ammalloc/src/central_cache.cpp:18-36 | moving objects among transfer cache, batches, thread caches and callers conserves how often each object is outside the bitmaps |
| `ObjectFlow.MoveKeepsRoom` | ammalloc/src/central_cache.cpp:85-135 | no move overfills the transfer cache |
| `ObjectFlow.GrabConserves` | ammalloc/src/central_cache.cpp:18-36 | likewise for popping the transfer cache |
| `ObjectFlow.PublishConserves` | ammalloc/src/central_cache.cpp:85-107 | likewise for publishing prefetched objects with the excess going back |
| `ObjectFlow.ReturnToTransferConserves` | ammalloc/src/central_cache.cpp:121-135 | likewise for the returned objects the transfer cache absorbs |
| `ObjectFlow.ExtractKeepsInv` | ammalloc/src/central_cache.cpp:58-80 | allocating from the first span moves exactly one object from its bitmap to one place outside |
| `ObjectFlow.RotateKeepsInv` | ammalloc/src/central_cache.cpp:61-66 | moving a full span to the back keeps every span in one place |
| `ObjectFlow.AddSpanKeepsInv` | ammalloc/src/central_cache.cpp:255-267 | a fresh span joins with all objects free |
| `ObjectFlow.ReturningObjectIsOut` | ammalloc/src/central_cache.cpp:141-146 | an object on its way back has a clear bit, and its span is in the list: freeing it is never a double free |
| `ObjectFlow.ReturnToSpanKeepsInv` | ammalloc/src/central_cache.cpp:139-161 | returning an object sets its bit, moves a newly non-full span to the front and an empty one out, and keeps the invariant across the lock release |
| `ObjectFlow.ReleasedSpanIsUnused` | ammalloc/src/central_cache.cpp:153-160 | no object of a span on its way to the page cache is anywhere outside its bitmap |
| `ObjectFlow.ReleaseKeepsInv` | ammalloc/src/central_cache.cpp:157-159 | the page cache takes the span back with the invariant kept |
| `ObjectFlow.ReturnsNeverStuck` | ammalloc/src/central_cache.cpp:141-144 | the span of a returning object is always found: the skip is never taken |
| `ObjectFlow.StepKeepsInv` | ammalloc/src/central_cache.cpp:9-164 | every step of every thread keeps each object in exactly one place, each span in exactly one place, and the transfer cache within its capacity |
| `ObjectFlow.RunsKeepInv` | ammalloc/src/central_cache.cpp:9-164 | so in every reachable state of every interleaving |
| `ObjectFlow.CacheStepConserves` | ammalloc/src/thread_cache.cpp:13-78 | thread-cache allocation, free, refill and trim conserve objects |
| `ObjectFlow.MallocIsExclusive` | ammalloc/include/ammalloc/thread_cache.h:53-69 | an object handed to a caller is marked in use and is in no other hand, cache or batch: it is never handed out twice |
| `Layers.SetSpan` | ammalloc/src/page_cache.cpp:50-98 | on the radix tree does what the page cache takes it to do on its map |
| `Layers.ClearRange` | ammalloc/src/page_cache.cpp:100-152 | likewise |
| `Layers.FindSpan` | ammalloc/src/page_cache.cpp:12-48 | with the mappings of a shard in the tree, a lookup answers with exactly the live span that covers the page, or null when none does |
| `Layers.Extract` | ammalloc/src/central_cache.cpp:58-80 | allocating from the bitmap is the step the object flow takes, and a full bitmap is its reason to rotate |
| `Layers.ReturnToSpan` | ammalloc/src/central_cache.cpp:139-161 | returning to the bitmap is the step the object flow takes, and the flow's invariant guarantees the bitmap's condition |
| `Layers.FreshSpan` | ammalloc/src/central_cache.cpp:255-267 | an initialized span is the one the object flow adds |
| `DenseMapList.MetadataIsFaithful` | include/container/map.h:300-316 | the metadata byte tells empty, protected, head and body slots apart and keeps the offset index |
| `DenseMapList.PushBackOk` | include/container/map.h:907-918 | appending keeps a well-formed doubly linked list |
| `DenseMapList.RemoveOk` | include/container/map.h:921-937 | unlinking keeps the list of the others in order |
| `DenseMapList.ReplaceOk` | include/container/map.h:940-957 | the replacing slot takes over the position |
| `DenseMapChains.NewHead` | include/container/map.h:1028-1033 | a new head in its empty home slot keeps every entry on the one chain of its home |
| `DenseMapChains.NewTail` | include/container/map.h:1072-1074 | likewise a new end of chain |
| `DenseMapChains.OneChain` | include/container/map.h:1007-1078 | a slot is on at most one chain |
| `DenseMapChains.StartSplit` | include/container/map.h:969-975 | cutting a chain in front of a slot |
| `DenseMapChains.MoveOne` | include/container/map.h:977-1002 | moving the first entry of the cut-off rest behind the rebuilt part keeps both parts and all other chains |
| `DenseMapChains.FinishSplit` | include/container/map.h:1004-1005 | when nothing is left the chain is whole again and the reserved slot belongs to no chain |
| `DenseMapChains.SwapAndDropLast` | include/container/map.h:768-777 | exchanging an entry's data with the end of its chain and dropping the end keeps all chains |
| `DenseMap.DenseMapObj.EntriesHaveDistinctKeys` | include/container/map.h:1007-1078 | no two entries have the same key |
| `DenseMap.DenseMapObj.KeyInSlot` | include/container/map.h:856-884 | a key is among the entries exactly when a slot holds it |
| `DenseMap.DenseMapObj.Search` | include/container/map.h:856-884 | terminates and finds the key exactly when it is among the entries |
| `DenseMap.DenseMapObj.GetNextEmptySlot` | include/container/map.h:731-739 | an empty slot at a probe offset, and none exactly when all of them are occupied |
| `DenseMapReach.ProbeIsNextSlot` | include/container/map.h:698-739 | the slot a probe finds is the slot the stored offset index leads back to |
| `DenseMapReach.HemmedInCount` | include/container/map.h:731-739 | an entry without an empty slot in reach is surrounded by as many occupied slots as the probes reach distances modulo the table size |
| `DenseMap.DenseMapObj.FindPrevSlot` | include/container/map.h:717-729 | terminates at the entry whose offset leads to the slot, its predecessor on the chain |
| `DenseMap.DenseMapObj.IterListRemove` | include/container/map.h:921-937 | removes one position from the iteration order |
| `DenseMap.DenseMapObj.IterListReplace` | include/container/map.h:940-957 | puts one slot in the place of another in the iteration order |
| `DenseMap.DenseMapObj.MoveBehind` | include/container/map.h:985-1000 | relocates one entry without changing entries or their order |
| `DenseMap.DenseMapObj.RelocateRest` | include/container/map.h:977-1002 | the loop of the relocation: order kept also when it fails midway |
| `DenseMap.DenseMapObj.TryAllocateListHead` | include/container/map.h:959-1005 | success frees the slot with all chains right; failure leaves every entry on the list, in order, only happens when some entry has no empty slot in reach, and either changes nothing or tears a chain of at least three |
| `DenseMap.DenseMapObj.InsertHead` | include/container/map.h:1028-1033 | appends the entry |
| `DenseMap.DenseMapObj.InsertDisplacing` | include/container/map.h:1036-1049 | appends the entry or changes no entry; a refusal needs as many entries as the probes reach slots, and leaves the chains whole unless three entries share a home slot |
| `DenseMap.DenseMapObj.InsertTail` | include/container/map.h:1054-1077 | appends the entry; refuses, and changes nothing, exactly when the table is full or the end of the chain has no empty slot in reach |
| `DenseMap.DenseMapObj.Assign` | include/container/map.h:1012-1017 | new value, entry moved to the back |
| `DenseMap.DenseMapObj.TryInsertOrUpdate` | include/container/map.h:1007-1078 | refines insertion into a sequence of entries with distinct keys: appended, or updated and moved to the back, or refused with the entries unchanged; never refused when the key is present, its home slot is empty, or the table is not full and holds fewer entries than the probes reach slots; a refusal leaves the chains whole unless three entries share a home slot |
| `DenseMap.DenseMapObj.EraseLast` | include/container/map.h:778-787 | removes the entry at the end of a chain |
| `DenseMap.DenseMapObj.EraseInner` | include/container/map.h:756-777 | removes an entry with successors by moving the end of its chain into its slot |
| `DenseMap.DenseMapObj.Erase` | include/container/map.h:748-790 | removes exactly the entry, order kept; the position returned still holds the next entry exactly when that entry did not end the erased entry's chain |
| `DenseMap.EraseReturnsEmptyPosition` | include/container/map.h:754-776 | in every table of at least eight slots: after inserting two keys with one home slot and erasing the first, the position returned is not the end and holds nothing |
| `DenseMapGrowth.Reinsert` | include/container/map.h:1092-1096 | one entry inserted again is kept in order or lost; it is lost only when the table is full or holds as many entries as the probes reach slots |
| `DenseMapGrowth.FullReachIsEnough` | include/container/map.h:1088-1091 | probes that look at every slot of a table of twice the size reach more slots than there can be entries |
| `DenseMapGrowth.ReinsertAll` | include/container/map.h:1092-1098 | along any well-formed iteration list: what arrives is a subsequence of its entries, all of them exactly when every insertion found a slot, and a loss needs a full table or more entries than the probes reach slots |
| `DenseMapGrowth.Rehash` | include/container/map.h:1092-1098 | what arrives is a subsequence of the entries, and all of them exactly when every insertion found a slot; into a table of twice the size nothing is lost while there are at most as many entries as the probes reach slots there; it tears the chains only if three entries share a home slot |
| `DenseMapGrowth.InsertImpl` | include/container/map.h:1080-1102 | without growing: a new key is appended, a present key keeps its place or is updated and moved to the back with assign; with growing: the kept entries, a subsequence, and the new key if it found a slot, whether or not entries were lost; nothing is lost or refused while there are fewer entries than the probes reach slots of the grown table |
| `DenseMapLoss.HomeSlotIsHead` | include/container/map.h:835-884 | a key that is present has the head of its chain in its home slot |
| `DenseMapLoss.PairChain` | include/container/map.h:1054-1077 | of two keys with one home slot one is in it and the other where a probe from it leads |
| `DenseMapLoss.NoRoomForAll` | include/container/map.h:1092-1098 | no table with whole chains holds a key for every slot the probes from slot 0 reach and two keys for slot 0, whatever the order of insertion |
| `DenseMapLoss.NotCrowded` | include/container/map.h:959-1005 | no three keys of that run share a home slot, so growing it tears nothing |
| `DenseMapLoss.PairEndIsFree` | include/container/map.h:731-739 | with one entry more than the probes reach slots the end of a chain of two still has an empty slot in reach, if no two probes lead back |
| `DenseMapLoss.InsertCluster` | include/container/map.h:1007-1078 | the old table takes all those keys, none refused |
| `DenseMapLoss.FillUp` | include/container/map.h:1007-1078 | and further keys up to its load limit |
| `DenseMapLoss.GrowthLosesEntry` | include/container/map.h:1080-1102 | then growing for one more key loses an entry, and reports that the key is in, with home slots that differ by one bit of the hash |
| `DenseMapOffsets.TrianglesDiffer` | src/container/map.cpp:15-28 | triangle numbers below a power of two differ modulo that power |
| `DenseMapOffsets.SmallTableReach` | src/container/map.cpp:15-39 | in a table of 16 to 128 slots the program's probes reach more than half of the slots |
| `DenseMapOffsets.InsertIntoSmall` | include/container/map.h:1080-1102 | with the program's offsets a table of 8 to 64 slots takes every new key, and growing loses and reorders nothing |
| `DenseMapOffsets.FoldsDiffer` | src/container/map.cpp:15-39 | no two of the program's 126 offsets are equally far from the multiples of 8192 |
| `DenseMapOffsets.ProgramHasFewProbes` | src/container/map.cpp:15-39 | so modulo any multiple of 8192 they are all different and no two add up to 0 |
| `DenseMapOffsets.RunThatLoses` | include/container/map.h:1080-1102 | for all offsets with these two properties and every table with room for them, from the empty map: a run of insertions, all successful, the last of which grows the table and leaves fewer entries than there were |
| `DenseMapOffsets.ProgramLoses` | include/container/map.h:1080-1102 | such a run with the program's offsets for every table whose size is a multiple of 8192 |
| `RefCount.HeaderIsAlive` | src/base/object.cpp:16-62 | the header an operation of a handle holder touches has not been freed |
| `RefCount.NobodyTearsDown` | src/base/object.cpp:16-40 | no teardown is under way while the strong count is positive |
| `RefCount.DropStrongKeepsInv` | src/base/object.cpp:16-17 | dropping a strong handle |
| `RefCount.DropWeakKeepsInv` | src/base/object.cpp:42-49 | dropping a weak handle |
| `RefCount.PromoteKeepsInv` | src/base/object.cpp:51-62 | a promotion, with spurious failures of the exchange |
| `RefCount.TearDownKeepsInv` | src/base/object.cpp:18-38 | every step of destroying the payload, dropping the group reference and freeing the storage |
| `RefCount.StepKeepsInv` | src/base/object.cpp:16-62 | every step of every thread keeps the invariant that ties both counts to the handles |
| `RefCount.NoResurrection` | src/base/object.cpp:51-62 | once the strong count is zero no step makes it positive |
| `RefCount.PromotionFindsLivePayload` | src/base/object.cpp:51-62 | a successful promotion finds a payload that is not destroyed |
| `RefCount.RunsAreSafe` | src/base/object.cpp:16-62 | in every reachable state of every interleaving: payload destroyed at most once and never under a strong handle, storage freed at most once, after the payload and never under a handle; when all threads are done without strong handles the payload is destroyed, and the storage freed exactly when no weak handle is left |
| `RefCount.CountersFit` | src/base/object.cpp:16-62 | both counters stay inside 32 bits while there are fewer than 2^32 strong and 2^32 - 1 weak handles |
| `StringCore.PackedCapacityRoundTrip` | include/amstring/char_layout_policy.hpp:104-123 | packing keeps every capacity up to the 62-bit limit and marks the storage external |
| `StringCore.DecoderAgrees` | include/amstring/char_layout_policy.hpp:104-123 | the last byte decodes to the right category, size and capacity for every well-formed storage |
| `StringCore.ResizedIsValid` | include/amstring/char_layout_policy.hpp:233-243 | setting the size writes terminator and tag, also where both are the last byte, and keeps the bytes before |
| `StringCore.TailMoves` | include/amstring/core.hpp:788-790 | moving the tail with its terminator keeps both and leaves the small tag valid |
| `StringCore.AppendIsExactIff` | include/amstring/core.hpp:463-494 | appending is concatenation, whatever an overlapping copy leaves, exactly unless the source is a stretch of the own content that includes the terminator and the string has to grow |
| `StringCore.AppendMayTakeStrayByte` | include/amstring/core.hpp:475-483 | a full inline string appended to itself with its terminator: byte 46 is the stray byte where concatenation has 0 |
| `StringCore.BasicStringCore.Append` | include/amstring/core.hpp:463-494 | content after an append for every source, foreign or own; a capacity error changes nothing and is reported exactly when the string must grow and either the new size passes the limit or the old capacity passes four fifths of it |
| `StringCore.BasicStringCore.AppendInPlace` | include/amstring/core.hpp:485-493 | concatenation within the capacity |
| `StringCore.BasicStringCore.AppendGrowing` | include/amstring/core.hpp:475-483 | content after an append that reallocates; the byte an overlapping copy leaves is a parameter |
| `StringCore.BasicStringCore.Reallocate` | include/amstring/core.hpp:769-779 | same content, new capacity |
| `StringCore.BasicStringCore.ReplaceRange` | include/amstring/core.hpp:370-410 | splices the source's old bytes into the old content for every position, count and source, own or foreign; a capacity error changes nothing and happens exactly above the limit |
| `StringCore.BasicStringCore.ReplaceFill` | include/amstring/core.hpp:412-456 | splices copies of one character in |
| `StringCore.BasicStringCore.EraseRangeFast` | include/amstring/core.hpp:781-792 | removes the range |
| `StringCore.BasicStringCore.ReplaceSameSizeFast` | include/amstring/core.hpp:794-799 | overwrites the range |
| `StringCore.BasicStringCore.ReplaceShrinkFast` | include/amstring/core.hpp:801-814 | splice with fewer bytes |
| `StringCore.BasicStringCore.ReplaceGrowInplaceFast` | include/amstring/core.hpp:816-826 | splice with more bytes inside the capacity |
| `StringCore.BasicStringCore.ReplaceReallocateSlow` | include/amstring/core.hpp:828-844 | splice through a temporary string |
| `StringCore.BasicStringCore.PushBack` | include/amstring/core.hpp:517-524 | appends one character; size, capacity and bytes copied follow the growth run |
| `StringCore.PushAll` | include/amstring/core.hpp:517-595 | appending n characters one by one to an empty string gives exactly them and copies fewer than 5n characters; it succeeds for every n up to four fifths of the capacity limit, and in general exactly when the growth run reaches n |
| `StringGrowth.GrowthIsEnough` | include/amstring/core.hpp:660-672 | a capacity granted holds what is required, stays below the limit, and fills whole pages when large |
| `StringGrowth.GrowthFailsIff` | include/amstring/core.hpp:660-724 | growth is refused exactly when the required size passes the limit or the old capacity passes 3689348814741910323, where a quarter more would pass it |
| `StringGrowth.RoundingIsTight` | include/amstring/core.hpp:701-724 | rounding adds less than a page |
| `StringGrowth.LargeStepGrowsByQuarter` | include/amstring/core.hpp:674-686 | a full large buffer grows by at least a quarter, counting the terminator |
| `StringGrowth.SmallStepGrowsByHalf` | include/amstring/growth_policy.hpp:27-37 | a full smaller buffer grows by half, up to rounding |
| `StringGrowth.PushBacksAreLinear` | include/amstring/core.hpp:564-595 | every run of n appends copies fewer than 5n characters |
| `StringGrowth.PushBacksSucceed` | include/amstring/core.hpp:564-595 | every run of up to 3689348814741910324 appends reaches its length |
| `Tensors.ShapeAndStride.Set` | src/base/shape_and_stride.cpp:27-45 | succeeds exactly for equal ranks of at most 8 and non-negative dimensions; otherwise changes nothing |
| `Tensors.ShapeAndStride.SetContiguous` | src/base/shape_and_stride.cpp:53-83 | succeeds exactly when the rank is at most 8, dimensions are non-negative and all inner products fit in 64 bits; the strides are then the row-major ones |
| `Tensors.RowMajorInRange` | src/base/shape_and_stride.cpp:73-77 | row-major offsets of valid indices lie below the element count |
| `Tensors.OffsetOfUnravel` | src/base/shape_and_stride.cpp:73-77 | every offset below the element count is the offset of a valid index |
| `Tensors.UnravelOfOffset` | src/base/shape_and_stride.cpp:73-77 | and of no other: with the previous row a bijection onto [0, numel) |
| `Tensors.ShapeAndStride.Numel` | src/base/shape_and_stride.cpp:91-105 | the product of the dimensions; fatal exactly when a running product overflows |
| `Tensors.ShapeAndStride.IsContiguous` | src/base/shape_and_stride.cpp:115-136 | true exactly when all strides that matter are row-major and all products met fit; false exactly when a wrong stride is met first; fatal otherwise |
| `Tensors.ContiguityIsRowMajorAddressing` | src/base/shape_and_stride.cpp:115-136 | without empty dimensions and with a count that fits, the test holds exactly when every element sits at its row-major offset |
| `Tensors.RowMajorIsContiguous` | src/base/shape_and_stride.cpp:53-83 | a layout just made contiguous has only right strides, and passes the test exactly when its element count fits in 64 bits |
| `Tensors.ContiguityTestMayOverflow` | src/base/shape_and_stride.cpp:130-132 | shape (2^62, 4) is accepted by set_contiguous and has no wrong stride, and yet is not contiguous: the test fails fatally |
| `Tensors.ContiguousThenTest` | src/base/shape_and_stride.cpp:53-136 | set_contiguous followed by is_contiguous, on every shape accepted: true, or fatal exactly when the element count overflows |
| `Tensors.ShapeAndStride.MaxElementOffset` | src/base/shape_and_stride.cpp:146-169 | the offset of the last index, 0 for an empty tensor; fatal exactly on a negative stride met or an overflow |
| `Tensors.LastIndexIsFarthest` | src/base/shape_and_stride.cpp:159-168 | that offset is the largest any valid index reaches |
| `Tensors.ElementsInsideBuffer` | src/base/tensor.cpp:51-72 | in every tensor that passed validation every element lies inside the buffer |
| `Tensors.NormalizeBound` | src/base/tensor.cpp:90-103 | in range, counting from the end when negative, clamped otherwise |
| `Tensors.SliceCountIsExact` | src/base/tensor.cpp:111-117 | the rounded-up quotient counts exactly the selected positions |
| `Tensors.SteppedOffset` | src/base/tensor.cpp:127-153 | stepping one stride and moving the base addresses slice elements as elements of the source |
| `Tensors.SliceSharesElements` | src/base/tensor.cpp:119-160 | element i of the slice is element begin + i * step of the source, at the same byte address |
| `Tensors.SliceMissesNothing` | src/base/tensor.cpp:119-160 | every element the bounds select is in the slice |
| `Tensors.SliceWithElementsIsValid` | src/base/tensor.cpp:156-160 | a slice with elements passes validation, and its offset arithmetic cannot overflow |
| `Tensors.SliceWithElementsFailsOnStepOnly` | src/base/tensor.cpp:111-154 | for such slices a check fails exactly when the step overflows the extent or the stride |
| `Tensors.EmptySliceIsValid` | src/base/tensor.cpp:135-160 | a slice without elements passes validation exactly when its offset is inside the buffer |
| `Tensors.EmptySliceMayBeRefused` | src/base/tensor.cpp:135-160 | an empty slice at the end of a widely strided tensor is refused |
| `Tensors.Slice` | src/base/tensor.cpp:74-161 | fails exactly on the listed checks; otherwise a validated tensor over the same buffer whose elements are the selected ones at their addresses, for every rank, shape, strides and bounds |

## Left out

- HugePageCache.PopInstallsTrueSuccessor: the proof assumes fewer than 2^48 updates of the head between a thread's load and its exchange, as the 48-bit tag requires; the step relation of runs includes that assumption.
- StringFind.BoyerMooreSearch: requires a count that the tables serve, or a needle that does not fit into the text; the run of the search for every other count is StringFind.SearchRun, and StringFind.BoyerMooreIsExactIff shows that the condition is exact.
- StringFind.Find: the same when it chooses Boyer-Moore.
- StringFind.BoyerMooreIsExactIff: needle buffers below 2^62 characters and texts below 2^63, so that the sums of the search stay inside 64 bits.
- SpanBitmap.Span.Init: requires the one combination of total and object size that overruns the bitmap to be excluded; SizeClass.InitSpanForClass shows that its caller never produces it.
- DenseMapGrowth.Rehash: stops when a re-insertion has torn a chain of the grown table; the source goes on there, from a slot whose entry is gone, and what it then reads is undefined. The entries the source destroys while it walks are not modelled as moved out.
- DenseMapGrowth.InsertImpl: the same; it takes three entries with one home slot.
- DenseMapOffsets.ProgramLoses: tables of 128 to 4096 slots are not decided. There nothing is lost up to the number of entries stated, and no run that loses one is given.
- RefCount.RunsAreSafe: counters are unbounded, which RefCount.CountersFit justifies up to 2^32 handles; a null deleter is not modelled.
- ObjectFlow.StepKeepsInv: the thread-cache quota policy, batch sizes and when a thread asks for a span are free choices of the scheduler, so the claims hold for every policy; the lock object's state on the out-of-memory path of GetOneSpan is not modelled.
- PageCacheShard.Shard.AllocSpanLocked: one shard, so owner ids never differ; span metadata is named by number, and fresh numbers and fresh page ranges are parameters.
- RadixPageMap.PageMap.GetSpan: states the lookup without a writer beside it; PageMapReaders has the interleaved one, with one writer at a time, as allocation always selects shard zero.
- StringCore.BasicStringCore.Append: the byte that a copy between overlapping ranges leaves is a parameter, any byte; char strings on little-endian machines; the wide-character layout policy is left out, and memory is a sequence of bytes per string, so aliasing between two different strings does not arise.
- Tensors.Slice: the buffer is its size in bytes; devices, data types beyond their item size and shared ownership are left out.
- Mapping, unmapping and advising memory, huge-page trimming, statistics and logging: interaction with the system.
- Weak memory orders: every atomic operation is one sequentially consistent step.
- Reset and teardown paths of the caches: they assume that no other thread is running.
- Several page-cache shards: the code does not establish which shard owns a refilled span.
- The second table of the same kind in map_v1.h and map_v2.h, the vendored hash maps, data type conversions, registries, execution plans and the Python tools: easy members or glue.
