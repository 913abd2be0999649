# Zenith in Dafny

Zenith is a front-end framework written in TypeScript. This project models the parts of it that carry an algorithm or a
protocol of their own and proves what they promise. `dafny verify dfyconfig.toml` checks everything.

Objects that the source updates in place (the shared cache, the list effect, the developer tools, the delegation cache,
the component processor, the fetch directive, the timed handlers, the extractor) are classes with the same fields; each
method is proved to take the abstract state `St()` (or the fields themselves) to what a function of the old state says.
The laws about whole runs are lemmas over those functions. Loops of the source are loops with invariants.

| file | what it holds |
|---|---|
| `Prelude.dfy`, `OrderedMaps.dfy` | options, results, sequences without repetition, insertion-ordered maps |
| `CacheSpec.dfy`, `CacheFacts.dfy` | the shared cache as functions on a state, and facts about removal, trimming and weight |
| `CacheAnswers.dfy` | what each operation of the cache answers and keeps, by the age of the entry |
| `SharedCache.dfy` | the cache as a class with its tag index and byte counter |
| `CacheRuns.dfy`, `CacheGuard.dfy`, `CacheLoads.dfy`, `CacheReads.dfy`, `CacheCounters.dfy`, `CacheInclusion.dfy`, `CacheFifo.dfy` | laws over all runs: conservation, the guard of loads, single flight, last writes and budget, counters left behind, inclusion of smaller caches in larger ones |
| `ExpressionCache.dfy` | the memoised expression compiler, a client of the cache class |
| `KeyedList.dfy` | the effect emitted for `zen-for` |
| `EditDistance.dfy`, `Csv.dfy`, `CsvSeparators.dfy`, `TableView.dfy`, `Dependencies.dfy`, `DependencyUses.dfy`, `StraightExpressions.dfy`, `ActionCalls.dfy`, `Base64Url.dfy` | edit distance and suggestions, CSV export and its separators, virtual window and pages, dependency extraction, what it records and when it is sound, action calls, base64url |
| `BindingCache.dfy`, `BindingNames.dfy`, `Timing.dfy`, `TimeTravel.dfy`, `FetchRace.dfy` | state machines: binding cache and what attribute names bind, debounce and throttle, timeline and replay, fetches |
| `Components.dfy`, `SlotFilling.dfy`, `ComponentTrees.dfy` | component expansion, the loop that fills slots, and the expanded tree |

## Where the code and its documentation part

The model follows the code. Each of these is proved, most of them with the exact condition under which the documented
behaviour holds.

- A load in flight during `clear()` can be stored afterwards, although the comment at `packages/cache/src/cache.ts:359`
  says it stays without effect: the counter is shared with a later load of the same key, whose end deletes it
  (`CacheLoads.OldLoadSurvivesClear`). The guard is exact for every continuation if and only if no other deferred load of
  the key is in flight (`CacheGuard.GuardExactIffNoRival`).
- `revalidate` does not trim, so it can leave the cache over its byte budget (`CacheReads.RevalidateBudget` says when).
- Inclusion of the smaller cache is a property of LRU. For FIFO it holds if and only if the smaller cache holds at most one
  key or the sizes are equal (`CacheFifo.FifoIncludedIff`).
- `configureCache` remembers a size that the cache then refuses, so asking again is silently accepted, unless the size is
  NaN, which differs even from itself (`ExpressionCache.Compiler.ConfigureCache`).
- Change counters do not live only as long as loads in flight, as the comments at lines 14 and 80 of
  `packages/cache/src/cache.ts` say. A key none of whose deferred loads is in flight has a counter if and only if it was
  changed while its load was one that had returned at once, with no deferred load of it from then on
  (`CacheCounters.CounterOutlivesLoadsIff`); `CacheCounters.CounterLeftBehind` is such a run. Loaders that return promises
  leave none (`CacheCounters.DeferringLoadersKeepNoCounters`).
- The default threshold of `findClosestMatch` is a third of the input's length, not half of the longer word
  (`packages/errors/src/core.ts:2028` against line 2044). It is never laxer (`EditDistance.DefaultIsNeverLaxer`). The
  suggestion is the documented one if and only if some candidate is within the third or none within the half
  (`EditDistance.DocumentedIff`); `EditDistance.HalfOfTheWordIsRefused` is an input where it is not.
- The extractor does not look into array literals, `??` and arrow functions. It finds exactly the signals outside them
  (`Dependencies.ExtractsExactlyReached`), hence all of them if and only if those inside also occur outside
  (`Dependencies.ExtractionIsCompleteIffNothingHidden`); `Dependencies.NullishHidesItsSignal` and
  `Dependencies.ArrowHidesItsSignal` are inputs whose value depends on a signal that is missed. That condition always
  suffices for soundness (`Dependencies.ExtractionIsSound`) and, where no part of the expression can be skipped, it is
  also necessary (`StraightExpressions.SoundIffNothingHidden`).
- The path documented for `$a.b.c` is `['b', 'c']`, but `['b']` is recorded (`Dependencies.DeepPathIsCut`). The path of a
  chain from a signal is recorded whole if and only if the chain has one step (`Dependencies.WholePathIffOneStep`).
- Merging the extractions of several expressions compares joined texts, so `$a['']` is lost beside `$a`
  (`DependencyUses.EmptyStepIsLost`); no other use of a signal ever is (`DependencyUses.MergesEveryUseOnceIff`).
- The trailing call of a throttled handler delivers the first event of a burst, not the last one as the comment at
  `packages/events/src/timing-modifiers.ts:89` says (`Timing.TrailingCallGivesFirstOfBurst`); in a burst of three the last
  one is lost (`Timing.LastOfBurstIsLost`). A debounce of 0 still merges
  events, although line 109 calls a wait of 0 a no-op (`Timing.ZeroDebounceStillMerges`); whatever the wait, debouncing
  loses nothing if and only if each event is followed directly by a timer firing (`Timing.TransparentIffFiredNext`).
- `replay(last, last)` goes forwards, so it does not undo the last change (`TimeTravel.ReplayBackShowsStateBefore`). What
  other code assigns in a pause of a replay is never recorded, and stays if nothing later in the replay assigns that signal
  (`TimeTravel.PausedAssignmentStays`).
- A `zen-action` value that contains `|name=` with a name of the kind the signature covers lets its element be mistaken for
  one with more attributes. Signatures tell attribute lists without such a mark apart (`BindingCache.SignatureIsInjective`),
  and a list is the finest with its signature if and only if it has none (`BindingCache.UnmarkedIffFinest`); other bars are
  harmless. Every mark in a value that answers leaves a look-up stale after an edit that splits the attribute there
  (`BindingCache.MarkLeavesStaleAnswer`); `BindingCache.StaleAnswer` is a look-up that denies a binding.
- Exported CSV is unreadable by any reader when the separator is a quote or a line feed (`Csv.FaithfulIffGoodSeparator`).
  A separator of any length without quotes loses nothing if and only if it is not empty and contains a carriage return, or
  else neither a line feed nor a proper part that is both its beginning and its end (`CsvSeparators.FaithfulIffTelling`).
- The cached and the invalid-URL branches of `zen-fetch` do not advance the fetch id, so an older fetch can overwrite their
  answer (`FetchRace.AnswerStandsIffNothingInFlight`; `FetchRace.OlderFetchOverwritesAnswer` is a run). A retry after
  status 429 escapes the abort of a newer fetch (`FetchRace.OnlyFirstAttemptsAreAborted`; a run is
  `FetchRace.RetryEscapesTheAbort`).
- A component given as slot content to another of the same tag is reported as circular
  (`Components.GivenToItselfIsCalledCircular`). Where no template refers back to its own component every circular error is
  such a false alarm, and `Components.FalseAlarmIffContent` says when it is raised; where no component is given content
  there are none (`Components.NoContentNoFalseAlarm`). Slot content whose last slot stands inside another slot is lost
  (`Components.ChildrenLandOnceOrAreLost`), and slot content of a slot below the top of the template is walked with the
  component's own context instead of that of the place of use (`Components.SlotContentKeepsItsContextIff`).
- The warning about slot content without a slot is computed after the slots are gone. It is right if and only if there is
  no slot content, or really no slot, or a child that found room brought a slot of its own
  (`Components.WarningIsRightIff`); a lone slot that gets filled is warned about (`Components.WarnsAboutFilledSlot`).
- Rows filtered away under an old scroll position leave an empty window below the table
  (`TableView.WindowStaysInsideIff`).

## Model

| member | source | states |
|---|---|---|
| SharedCache.Cache.RemoveKey | packages/cache/src/cache.ts:142-149 | removal bumps the key's in-flight counter, takes the entry out of order, table, tag index and byte count, and counts one eviction; tag index and byte count stay exact |
| SharedCache.Cache.Untag | packages/cache/src/cache.ts:130-140 | afterwards the index holds exactly the other (tag, key) pairs, each bucket in its old order, and no empty bucket |
| SharedCache.Cache.AddTags | packages/cache/src/cache.ts:193-201 | the key stands behind the keys written before it in the bucket of each of its tags, and nothing else changes |
| SharedCache.Cache.SweepExpired | packages/cache/src/cache.ts:208-212 | the loop removes exactly the entries past ttl + stale window |
| SharedCache.Cache.TrimToSize | packages/cache/src/cache.ts:156-160 | drops the shortest run of oldest keys that brings the size within the capacity |
| SharedCache.Cache.TrimToBytes | packages/cache/src/cache.ts:161-167 | drops the shortest run of oldest keys after which the real sum of sizes fits the budget, although it only looks at its running counter; `CacheAnswers.WriteKeepsYoungest` says that no shorter run would do |
| SharedCache.Cache.TouchKey | packages/cache/src/cache.ts:171-176 | moves the key to the young end under LRU, leaves the order alone under FIFO |
| SharedCache.Cache.StoreKey | packages/cache/src/cache.ts:178-206 | a write bumps, replaces, retags and trims; a bad ttl is an error that has already lost the old entry |
| SharedCache.Cache.ReadFresh | packages/cache/src/cache.ts:218-233 | the three outcomes of a read with their counters: miss, stale hit, hit |
| SharedCache.Cache.Read | packages/cache/src/cache.ts:320-323 | `get`, refused after dispose |
| SharedCache.Cache.PeekAt | packages/cache/src/cache.ts:324-332 | `peek` neither counts nor touches, but removes an expired entry |
| SharedCache.Cache.Has | packages/cache/src/cache.ts:337-345 | true exactly for a live entry |
| SharedCache.Cache.Write | packages/cache/src/cache.ts:333-336 | `set` with its two errors |
| SharedCache.Cache.DeleteKey | packages/cache/src/cache.ts:346-354 | removes, or bumps an in-flight load of an absent key |
| SharedCache.Cache.ClearAll | packages/cache/src/cache.ts:355-360 | empties entries and pending and bumps every pending key once for that and once for its entry |
| SharedCache.Cache.Refresh | packages/cache/src/cache.ts:361-375 | `revalidate` renews value and time of a live entry in place and reports whether there was one |
| SharedCache.Cache.InvalidateByTags | packages/cache/src/cache.ts:380-402 | exactly the entries carrying one of the tags go, and their keys are returned bucket after bucket in the order of the buckets, each where it is met first |
| SharedCache.Cache.InvalidateByPredicate | packages/cache/src/cache.ts:380-402 | removes the matching entries, bumps the matching loads in flight, and returns the removed keys in the order of the entries |
| SharedCache.Cache.BeginLoad | packages/cache/src/cache.ts:240-285 | a load is registered with the counter it saw, whether it returned at once or later; a throwing loader changes nothing |
| SharedCache.Cache.ReadOrLoad | packages/cache/src/cache.ts:287-312 | serves, joins the load in flight, or starts one; an entry whose age is between its ttl and the end of the stale window is served at once, counted as one stale hit and left as it is, and exactly one load of the key with these options is registered, unless one is in flight or the loader throws |
| SharedCache.Cache.FinishLoad | packages/cache/src/cache.ts:253-285 | the end of a load releases it and stores its value if the counter still stands where it stood |
| SharedCache.Cache.DisposeAll | packages/cache/src/cache.ts:444-453 | empties everything once |
| SharedCache.Cache.Keys | packages/cache/src/cache.ts:404-407 | the live keys in order, after a sweep |
| SharedCache.Cache.constructor | packages/cache/src/cache.ts:56-88 | a fresh cache is empty and satisfies the representation invariant |
| CacheSpec.Configure | packages/cache/src/cache.ts:66-75 | which options are refused; accepted ones give a usable configuration with the ttl, window, policy, sizes and budget asked for, whose capacity admits the same sizes as `maxSize`, and a ttl of `never` or 0 means no limit |
| CacheAnswers.GetByAge | packages/cache/src/cache.ts:218-233 | an entry no older than its ttl is a hit, one no older than ttl plus stale window a stale hit, both served and touched; an older one is a miss, removed and counted as an eviction |
| CacheAnswers.PeekByAge | packages/cache/src/cache.ts:324-345 | `peek` and `has` by the same ages, without touching or counting |
| CacheAnswers.FreshIsServed | packages/cache/src/cache.ts:300-304 | `getOrLoad` serves a fresh entry as a hit, touches it and starts nothing |
| CacheAnswers.StaleIsServedAndRefreshed | packages/cache/src/cache.ts:292-299 | a stale entry is served, one stale hit is counted, and exactly one load of the key with these options and the counter it saw is registered, unless one is in flight or the loader throws |
| CacheAnswers.DeadIsLoaded | packages/cache/src/cache.ts:287-312 | without a live entry the load in flight is joined; otherwise a miss is counted and a load is started, served at once if the loader returned a value |
| CacheAnswers.WriteKeepsYoungest | packages/cache/src/cache.ts:151-206 | a write keeps the live entries and the new one behind them, less the shortest run of oldest ones after which number and sum of sizes are within the limits; none of them is changed |
| CacheAnswers.SetThenGetIff | packages/cache/src/cache.ts:178-233 | what was set is what `get` returns up to the end of ttl plus stale window and not after, if and only if the capacity is not 0 and the value's size is within the byte budget |
| CacheAnswers.BadTtlLosesEntry | packages/cache/src/cache.ts:178-192 | which per-entry ttls are refused, and that the old entry is gone then |
| CacheAnswers.RevalidateByAge | packages/cache/src/cache.ts:361-375 | a live entry gets a new value and time and keeps ttl and tags, a dead one is removed, an absent one stays absent |
| CacheAnswers.InvalidationTakes | packages/cache/src/cache.ts:355-402 | exactly the entries with one of the tags, those the predicate accepts, or all go, the others stay in order, and only `clear` forgets the loads in flight |
| CacheAnswers.DisposeEmpties | packages/cache/src/cache.ts:444-453 | disposing empties entries, pending loads and counters, and only once |
| CacheRuns.StepKeepsInv | packages/cache/src/cache.ts:116-453 | every operation, load completion included, keeps order and table in step, size within the capacity and every pending key tied to a load of that key |
| CacheRuns.EntriesAreConserved | packages/cache/src/cache.ts:142-206 | over any run, writes that created an entry less entries lost to a bad ttl equal the entries present plus the evictions counted |
| CacheGuard.CommitsExactlyIfUntouched | packages/cache/src/cache.ts:96-285 | after any run without a rival load, the commit test of a load is true exactly if its key was neither written nor removed meanwhile and the cache is alive |
| CacheGuard.NoRivalWithoutClear | packages/cache/src/cache.ts:266-312 | without `clear()` no second load of a key starts beside a registered one |
| CacheGuard.GuardExactIffNoRival | packages/cache/src/cache.ts:253-285 | the guard of a fresh load is exact in every continuation without `clear()` if and only if no other deferred load of its key is in flight |
| CacheGuard.RivalBreaksGuard | packages/cache/src/cache.ts:266-271 | a rival's end resets the shared counter, so the guard then wrongly stores or wrongly drops |
| CacheLoads.SingleFlight | packages/cache/src/cache.ts:287-312 | over any run whose clears find no load in flight, no key ever has two loads in flight |
| CacheLoads.LoadIsStoredExactlyIfUntouched | packages/cache/src/cache.ts:240-312 | from `getOrLoad` to completion, over every interleaving without `clear()`: the value is stored exactly if the key was untouched and the cache is alive, and otherwise the entries stay as they are |
| CacheLoads.OldLoadSurvivesClear | packages/cache/src/cache.ts:355-360 | a run in which the value of a load older than a clear is stored after it |
| CacheCounters.CounterOutlivesLoadsIff | packages/cache/src/cache.ts:90-285 | over any run of a new cache, a key with no deferred load in flight has a counter if and only if it was changed while a load that had returned at once was registered for it, no deferred load of it was in flight from then on, and the cache is not disposed |
| CacheCounters.DeferringLoadersKeepNoCounters | packages/cache/src/cache.ts:14-16 | over any run whose loaders all return promises, a key with no load in flight has no counter |
| CacheCounters.CounterLeftBehind | packages/cache/src/cache.ts:254-264 | a run after which no load is in flight and a counter is left |
| CacheReads.EntriesAreLastWrites | packages/cache/src/cache.ts:178-233 | over any run an entry holds the value and time of the last write, refresh or committed load of its key, and the ttl given with it or, for a refresh, with the write before |
| CacheReads.ReadsReturnTheLastWrite | packages/cache/src/cache.ts:116-128 | any value that `get`, `peek` or, from a live entry, `getOrLoad` returns is the one written last to that key, and not older than the ttl of that write plus the stale window |
| CacheReads.WritesRestoreBudget | packages/cache/src/cache.ts:151-206 | every successful write ends within the byte budget, wherever it started |
| CacheReads.RevalidateBudget | packages/cache/src/cache.ts:361-375 | `revalidate` ends within the budget exactly when the new value fits in place of the old |
| CacheInclusion.ApplyOrder | packages/cache/src/cache.ts:151-233 | what one access does to the key order, in terms of keys and capacity alone |
| CacheInclusion.SmallerLruIsIncluded | packages/cache/src/cache.ts:151-312 | on any trace the key order of the smaller LRU cache is a subsequence of the larger one's, which has at most the difference of the capacities more |
| CacheInclusion.LargerLruHitsMore | packages/cache/src/cache.ts:218-312 | on any trace the larger LRU cache serves at least as many reads |
| CacheFifo.FifoIncludedIff | packages/cache/src/cache.ts:151-206 | the smaller FIFO cache is included in the larger one after every trace if and only if it holds at most one key or the sizes are equal |
| CacheFifo.FirstKeyComesBack | packages/cache/src/cache.ts:170-176 | for all other sizes k1 ... kn, k1, x is a trace after which only the smaller cache holds k1 |
| ExpressionCache.Compiler.Compile | packages/expressions/src/cache.ts:43-62 | after any history the answer is parse-then-validate of the sanitised text; hits become youngest, failures are not kept |
| ExpressionCache.CompilesIff | packages/expressions/src/cache.ts:43-62 | which tree an expression gives, when it is a syntax error and when it is forbidden |
| ExpressionCache.Compiler.ClearCache | packages/expressions/src/cache.ts:67-69 | no expression is kept |
| ExpressionCache.Compiler.ConfigureCache | packages/expressions/src/cache.ts:79-92 | a new size keeps exactly the youngest expressions that fit, in order and with their trees; a refused size leaves the cache but is remembered; the same size again, an infinite one too, does nothing |
| ExpressionCache.Compiler.Transfer | packages/expressions/src/cache.ts:86-89 | the copying loop leaves the old cache alone and fills the new one with the youngest of its entries, in order |
| ExpressionCache.TransferStep | packages/expressions/src/cache.ts:86-89 | copying one more key, oldest first, keeps the copy equal to the youngest of the keys so far |
| KeyedList.LastOrderDistinct | packages/compiler/src/compiler.ts:619-661 | no key stands twice in that order |
| KeyedList.LastOrderIsByLastIndex | packages/compiler/src/compiler.ts:619-661 | the order left by the loop is the order of last occurrence |
| KeyedList.ForEffect.Place | packages/compiler/src/compiler.ts:657-660 | the conditional insertBefore always leaves the node right behind the previous one and every other sibling in its order |
| KeyedList.ForEffect.Bind | packages/compiler/src/compiler.ts:623-656 | a known key keeps its node and its teardown and has both signals set, a new key gets a fresh node and the teardown its children asked for |
| KeyedList.ForEffect.PlaceItems | packages/compiler/src/compiler.ts:618-661 | the first loop binds every key to its last occurrence and arranges the nodes behind the placeholder |
| KeyedList.ForEffect.DropLeftovers | packages/compiler/src/compiler.ts:662-679 | the second loop tears down and removes exactly the entries whose key is unused |
| KeyedList.ForEffect.Run | packages/compiler/src/compiler.ts:612-680 | from any siblings: behind the placeholder stand exactly the nodes of the distinct keys by last occurrence, no node twice, then the foreign siblings in their order; surviving keys keep node and teardown; exactly the entries whose key left are torn down |
| KeyedList.ForEffect.RunAll | packages/compiler/src/compiler.ts:612-680 | over any sequence of runs, with the siblings disturbed in between: the teardowns run are, once each, those of exactly the nodes with one that were ever created and whose key has left |
| KeyedList.DropEntryOk | packages/compiler/src/compiler.ts:662-678 | dropping an entry keeps the account of teardowns exact |
| KeyedList.ForEffect.constructor | packages/compiler/src/compiler.ts:603-610 | the placeholder is appended and nothing is bound |
| KeyedList.ArrangeStep | packages/compiler/src/compiler.ts:657-660 | moving one node of the segment to its end keeps the whole child list arranged |
| KeyedList.FinalSiblings | packages/compiler/src/compiler.ts:662-679 | removing the dead nodes leaves the segment and the foreign siblings |
| EditDistance.Levenshtein | packages/errors/src/core.ts:2067-2095 | the filled table's last cell is the distance |
| EditDistance.DistanceIsShortestScript | packages/errors/src/core.ts:2064-2095 | the distance is the length of a shortest insert, delete and substitute script |
| EditDistance.ZeroIsSame | packages/errors/src/core.ts:2067-2070 | distance zero only between equal strings |
| EditDistance.Symmetric | packages/errors/src/core.ts:2067-2095 | the distance is symmetric |
| EditDistance.Triangle | packages/errors/src/core.ts:2067-2095 | the triangle inequality |
| EditDistance.SortIsStable | packages/errors/src/core.ts:2053-2059 | the sort is ascending and keeps equals in order |
| EditDistance.ClosestMatchIsFirstBest | packages/errors/src/core.ts:2031-2062 | the suggestion is the first candidate of least distance within the threshold, and there is none exactly when no candidate is within it |
| EditDistance.GivenLimitCounts | packages/errors/src/core.ts:2045-2062 | with a `maxDistance` the suggestion is the first of the nearest candidates if that is within it, and there is none otherwise; infinity admits all, NaN none |
| EditDistance.DollarIsIgnored | packages/errors/src/core.ts:2037-2050 | a leading dollar changes neither distances nor the default limit |
| EditDistance.DefaultIsNeverLaxer | packages/errors/src/core.ts:2028-2044 | the threshold of the code is never above the documented one |
| EditDistance.DocumentedIff | packages/errors/src/core.ts:2028-2062 | the suggestion is the one the documentation promises if and only if some candidate is within a third of the input's length or none is within half of the longer word |
| EditDistance.HalfOfTheWordIsRefused | packages/errors/src/core.ts:2028-2044 | an input that gets no suggestion although the documentation promises one |
| Csv.ExportCsv | packages/data-table/src/data-table.ts:581-634 | the loop prints header and cells of the chosen columns line by line, with any separator text and an optional byte order mark |
| Csv.QuotedIffNeeded | packages/data-table/src/data-table.ts:600-612 | a cell is printed as it is if and only if it has no quote, line break or separator in it; any other stands in quotes, its quotes doubled |
| Csv.OneColumnMore | packages/data-table/src/data-table.ts:592-596 | the exported columns are, in order, those not hidden and, where keys are selected, selected |
| Csv.TableByPosition | packages/data-table/src/data-table.ts:613-628 | titles above if asked for, and in line i, column j what row i shows there |
| Csv.RoundTrip | packages/data-table/src/data-table.ts:600-628 | a reader after section 2 of RFC 4180, with LF as line end, gives back every cell of every printed table, whatever the cells contain |
| Csv.ExportRoundTrip | packages/data-table/src/data-table.ts:581-628 | the same for an export with at least one column and one line, read by a program that takes off a leading byte order mark: header and cells come back if and only if the export was made with a mark or does not itself begin with one |
| Csv.FaithfulIffGoodSeparator | packages/data-table/src/data-table.ts:600-628 | with a separator of one character, printing is injective if and only if that is neither a quote nor a line feed |
| CsvSeparators.FaithfulIffTelling | packages/data-table/src/data-table.ts:600-628 | with a separator of any length that has no quote, printing is injective if and only if the separator is not empty and contains a carriage return, or else neither a line feed nor a border |
| CsvSeparators.TellingIsFaithful | packages/data-table/src/data-table.ts:600-628 | with such a separator two tables printed alike are equal |
| CsvSeparators.BorderLosesCells | packages/data-table/src/data-table.ts:600-628 | with a bordered separator two different tables are printed alike |
| TableView.WindowCoversViewportIff | packages/data-table/src/data-table.ts:663-689 | every row in view is in the window if and only if the overscan reaches the bottom row, which one row of overscan always does |
| TableView.WindowIsSmall | packages/data-table/src/data-table.ts:679-681 | the window has at most the visible rows plus twice the overscan |
| TableView.RowsAreDrawnInPlace | packages/data-table/src/data-table.ts:667-688 | drawn one under the other from `offsetTop`, the rows are where they would be if all were drawn, and all together are `totalHeight` high |
| TableView.WindowStaysInsideIff | packages/data-table/src/data-table.ts:678-688 | the window is a slice of the rows inside the total height exactly while the scroll position is not past the last row by more than the overscan |
| TableView.PagesPartitionTheRows | packages/data-table/src/data-table.ts:371-380 | the pages one after the other are the filtered data, and none is empty unless all are |
| Dependencies.ExtractPath | packages/dependency-graph/src/extractor.ts:148-175 | the unshift loop yields the path from root to leaf, with `*` for dynamic steps |
| Dependencies.Extractor.Visit | packages/dependency-graph/src/extractor.ts:55-122 | the in-place walk adds to the list and the set of seen keys what the walk function says; from nothing that is the first use of every signal and path (`DependencyUses.ExtractsEveryUseOnce`) |
| Dependencies.ExtractDependencies | packages/dependency-graph/src/extractor.ts:36-50 | an expression that does not compile yields nothing, any other what its walk yields |
| Dependencies.ExtractAllDependencies | packages/dependency-graph/src/extractor.ts:183-199 | the merge loop: what it yields is the merge function's, which `DependencyUses.MergesEveryUseOnceIff` describes |
| DependencyUses.ExtractsEveryUseOnce | packages/dependency-graph/src/extractor.ts:55-122 | of a tree as the parser builds it, the extracted list is the uses of signals outside array literals, `??` and arrow functions, alone or with the step behind them, in reading order, each pair of signal and path once and as used first; the uses are defined by recursion on the tree |
| DependencyUses.TwoPathsOfOneSignal | packages/dependency-graph/src/extractor.ts:72-88 | `$user.name + $user.age` yields both paths |
| DependencyUses.MergesEveryUseOnceIff | packages/dependency-graph/src/extractor.ts:183-199 | the merged list has each signal and path once, and it is the first use of every one in all expressions if and only if no signal is used both alone and with an empty step |
| DependencyUses.EmptyStepIsLost | packages/dependency-graph/src/extractor.ts:187-194 | `$a` and `$a['']`: the merged list holds only the first |
| Dependencies.ExtractsExactlyReached | packages/dependency-graph/src/extractor.ts:55-122 | the extracted signals are exactly those that occur outside array literals, `??` and arrow functions |
| Dependencies.ExtractionIsCompleteIffNothingHidden | packages/dependency-graph/src/extractor.ts:55-122 | every signal of the expression is extracted if and only if those inside array literals, `??` and arrow functions also occur outside |
| Dependencies.EvaluationNeedsOnlyMentioned | packages/expressions/src/evaluator.ts:74-332 | evaluation depends on no signal that the expression does not mention |
| Dependencies.OperandsDecide | packages/expressions/src/evaluator.ts:74-332 | which operand `and`, `or`, `??` and `?:` give, by the value of the first |
| Dependencies.ClosureNeedsOnlyItsCapture | packages/expressions/src/evaluator.ts:307-315 | an arrow function's body, called with anything, evaluates from what the arrow function mentions as it does in the whole context |
| Dependencies.ExtractionIsSound | packages/dependency-graph/src/extractor.ts:30-50 | contexts that agree on the extracted signals and on all other names evaluate alike, if the signals inside array literals, `??` and arrow functions also occur outside |
| StraightExpressions.SoundIffNothingHidden | packages/dependency-graph/src/extractor.ts:30-121 | for an expression without conditionals, logical operators and `??` outside function bodies, that holds for every language and all contexts if and only if the signals inside array literals and arrow functions also occur outside |
| StraightExpressions.MissingSignalShows | packages/expressions/src/evaluator.ts:74-332 | in a language where a mark spreads through every operation, the value of such an expression shows a missing signal exactly if it mentions it |
| Dependencies.DeadBranchIsHarmless | packages/dependency-graph/src/extractor.ts:108-112 | a missed signal in a branch that is never taken does no harm, so soundness does not imply that condition |
| Dependencies.NullishHidesItsSignal | packages/dependency-graph/src/extractor.ts:58-121 | an expression that extracts nothing and depends on a signal |
| Dependencies.ArrowHidesItsSignal | packages/dependency-graph/src/extractor.ts:58-121 | an arrow function that extracts nothing and closes over a signal |
| Dependencies.PathsHaveOneStep | packages/dependency-graph/src/extractor.ts:72-91 | no recorded path has more than one step |
| Dependencies.WholePathIffOneStep | packages/dependency-graph/src/extractor.ts:72-91 | of a chain of members from a signal, the whole path is recorded if and only if the chain has one step |
| Dependencies.DeepPathIsCut | packages/dependency-graph/src/extractor.ts:143-146 | `$a.b.c` is recorded as `$a` with path `['b']` |
| Dependencies.MergingLosesNoSignal | packages/dependency-graph/src/extractor.ts:183-199 | merging by joined text keeps every signal of every expression, as names contain no dot |
| ActionCalls.SplitActionArgs | packages/events/src/delegation.ts:108-150 | the scanning loop with its slices agrees with a scanner that reads character by character |
| ActionCalls.SplitsBackIffSeparable | packages/events/src/delegation.ts:108-150 | joined arguments split back into themselves if and only if all but the last close their brackets and strings and no top-level comma splits any |
| ActionCalls.ParsePrintedCall | packages/events/src/delegation.ts:167-194 | parsing `name(a1, ..., an)` gives back name and arguments under exactly that condition |
| ActionCalls.IsCallIff | packages/events/src/delegation.ts:167-194 | a text without blanks around it is a call if and only if some parenthesis opens, not at the very beginning, before another closes; any other is a name as a whole |
| ActionCalls.WellFormedArgumentsRoundTrip | packages/events/src/delegation.ts:154-194 | arguments built from plain characters, string literals with escapes and nested brackets always survive |
| Base64Url.EncodeBytes | packages/auth-oauth/src/pkce.ts:31-38 | the loop over the bytes computes the encoding |
| Base64Url.DecodeSegment | packages/auth-oauth/src/jwt.ts:32-42 | the loop over the characters computes the decoding, or `atob` throws |
| Base64Url.RoundTrip | packages/auth-oauth/src/jwt.ts:32-42 | decoding an encoded byte string gives it back |
| Base64Url.EncodedForm | packages/auth-oauth/src/pkce.ts:31-38 | only characters of the table in section 5 of RFC 4648, no padding, length four thirds rounded up and never 1 modulo 4 |
| Base64Url.EncodeByBits | packages/auth-oauth/src/pkce.ts:31-38 | each character is the one that the table in section 5 of RFC 4648 has for its six bits of the input |
| Base64Url.DecodesIff | packages/auth-oauth/src/jwt.ts:32-42 | a segment without white space and pads decodes if and only if its length is not one more than a multiple of four and every character is in one of the two alphabets |
| Base64Url.VerifierLength | packages/auth-oauth/src/pkce.ts:8-38 | 64 bytes give 86 characters, inside the range of section 4.1 of RFC 7636 |
| Base64Url.EncodeIsInjective | packages/auth-oauth/src/pkce.ts:31-38 | different bytes give different text |
| BindingCache.ComputeBindingSignature | packages/events/src/delegation.ts:245-253 | the loop joins the bound attributes in order |
| BindingCache.SignatureIsInjective | packages/events/src/delegation.ts:245-253 | among attribute lists whose values contain no mark (a bar, a bound name, an equals sign), equal signatures mean equal bound attributes in equal order |
| BindingCache.FinestIsUnique | packages/events/src/delegation.ts:245-253 | every other list with the signature of such a list has fewer bound attributes |
| BindingCache.UnmarkedIffFinest | packages/events/src/delegation.ts:245-253 | a list has the most bound attributes of all with its signature if and only if its values contain no such mark |
| BindingCache.SplitSharesSignature | packages/events/src/delegation.ts:245-253 | a list with a mark shares its signature with the list split there |
| BindingCache.SplitNamesPlain | packages/events/src/delegation.ts:245-253 | the split list has distinct names if the old one had and the new name is not among them, so that it can be an element's |
| BindingCache.FindSeesOnlyBound | packages/events/src/delegation.ts:333-369 | the search depends on nothing the signature does not cover |
| BindingCache.CacheKeyIsInjective | packages/events/src/delegation.ts:328 | the cache key tells event and phase apart for event names without a bar |
| BindingCache.Delegation.Search | packages/events/src/delegation.ts:333-369 | the attribute loop finds the first explicit binding for event and phase, else the plain `zen-action` of a click; `BindingNames` says on the text of the names which attributes those are |
| BindingNames.ParsesAsWritten | packages/events/src/modifiers.ts:48-53 | `zen-action:e.m1. ... .mn` means event `e` with the modifiers that are not empty, in order |
| BindingNames.EveryNameIsWritten | packages/events/src/modifiers.ts:48-53 | every name with the prefix is written so, in exactly one way |
| BindingNames.BindsAsWritten | packages/events/src/delegation.ts:337-346 | an attribute binds an event in a phase if and only if it has a value and its name is written with that event and, for the capture phase with, for the bubble phase without, the modifier `capture` |
| BindingNames.FirstWrittenAnswers | packages/events/src/delegation.ts:333-356 | the answer is the first such attribute, with its value, its parsed call and its modifiers |
| BindingNames.PlainAnswersClicks | packages/events/src/delegation.ts:358-369 | without one, a plain `zen-action` with a value answers clicks outside the capture phase, and nothing else is answered |
| BindingNames.LoneBindingIsHeard | packages/events/src/delegation.ts:333-369 | a lone attribute `zen-action:e.m1. ... .mn` with a value is found for capture if and only if one `mi` is `capture`, for bubble if and only if none is, for any phase always, and for no other event |
| BindingCache.Delegation.FindBinding | packages/events/src/delegation.ts:316-373 | the answer is the one remembered under signature and cache key, else the search's; after any edits, lookups and clears it is the search's answer now, as long as no lookup of this element since the last clear met a mark or a bar in a name or event |
| BindingCache.Delegation.ClearBindingCache | packages/events/src/delegation.ts:300-302 | nothing is cached |
| BindingCache.BarInValueFoolsTheCache | packages/events/src/delegation.ts:245-253 | two attribute lists with one signature, one of which binds an event that the other does not |
| BindingCache.LookUpEditLookUp | packages/events/src/delegation.ts:322-330 | after an edit the cache gives its first answer again exactly when the signature is the same, and the new search's otherwise |
| BindingCache.StaleAnswer | packages/events/src/delegation.ts:316-373 | a look-up after an edit that denies a binding the element now has |
| BindingCache.SplitIsAnsweredOtherwise | packages/events/src/delegation.ts:333-369 | where the answer comes from an attribute with a mark in its value, splitting the attribute at the mark changes the answer, provided something stands before the mark or no other attribute has that value |
| BindingCache.MarkLeavesStaleAnswer | packages/events/src/delegation.ts:316-373 | so look-up, an edit that splits there, and look-up again return the old answer, which is not the search's |
| Timing.DebouncedHandler.Handle | packages/events/src/timing-modifiers.ts:59-65 | an event replaces the pending one and starts the wait anew |
| Timing.DebouncedHandler.OnTimer | packages/events/src/timing-modifiers.ts:61-64 | the timer calls the handler with the event it was set for |
| Timing.DebounceDelivers | packages/events/src/timing-modifiers.ts:56-73 | over every trace the handler's calls are exactly the events right before a timer firing |
| Timing.DeliveredAfterSilence | packages/events/src/timing-modifiers.ts:57-65 | each is delivered at least the wait after it came, with nothing in between |
| Timing.OneCallPerFiring | packages/events/src/timing-modifiers.ts:59-65 | the calls are one per firing, in order, each with the event right before it |
| Timing.FateOfEachEvent | packages/events/src/timing-modifiers.ts:56-73 | the input after an event decides its fate: delivered at a known place among the calls after at least the wait, still waiting, superseded or cancelled, and then neither called nor waiting |
| Timing.EveryEventHasOneFate | packages/events/src/timing-modifiers.ts:56-73 | the events are as many as those superseded, cancelled, delivered and waiting together |
| Timing.TransparentIffFiredNext | packages/events/src/timing-modifiers.ts:56-73 | the handler gets exactly the events that came if and only if each is followed directly by a firing |
| Timing.ZeroDebounceStillMerges | packages/events/src/timing-modifiers.ts:106-117 | with a wait of 0 the first of two events is still lost |
| Timing.ThrottledHandler.Handle | packages/events/src/timing-modifiers.ts:79-97 | an event is handled at once if the wait is over, sets the timer if none is set, and is dropped otherwise |
| Timing.ThrottledHandler.OnTimer | packages/events/src/timing-modifiers.ts:90-95 | the trailing call moves the time of the last call |
| Timing.ThrottleKeepsItsDistance | packages/events/src/timing-modifiers.ts:76-97 | over every trace calls are at least the wait apart and the one timer is due exactly the wait after the last call |
| Timing.CallRateIsBounded | packages/events/src/timing-modifiers.ts:75-97 | so n calls take at least n - 1 waits |
| Timing.TrailingCallGivesFirstOfBurst | packages/events/src/timing-modifiers.ts:88-96 | the trailing call delivers the first event of its burst, and the last one if and only if the burst has one event |
| Timing.LastOfBurstIsLost | packages/events/src/timing-modifiers.ts:79-97 | a burst of three: the first is handled at once, the trailing call brings the second, the last is lost |
| Timing.EventIsHandledOrFollowed | packages/events/src/timing-modifiers.ts:79-97 | right after an event it was handled or a timer for a later call is set |
| Timing.ZeroThrottleIsTransparent | packages/events/src/timing-modifiers.ts:106-117 | with a wait of 0 and a clock that does not run backwards every event is handled when it comes |
| Timing.ParseWait | packages/events/src/timing-modifiers.ts:111-117 | the wait is the first number after the modifier, or 0; the decimal text of n right behind the modifier gives n |
| Timing.NumericReads | packages/events/src/timing-modifiers.ts:113-114 | after blanks and a sign, the digits of a token are read in base ten, whatever comes behind them; without a digit there, or for a negative number, there is none |
| Timing.TokenHasParts | packages/events/src/timing-modifiers.ts:113-114 | every token is made of such parts |
| Timing.NumericReadsWritten | packages/events/src/timing-modifiers.ts:113-114 | for every n its decimal text reads as n, also with blanks, a plus sign and anything but a digit behind it |
| Timing.ThreeHundredIsRead | packages/events/src/timing-modifiers.ts:113-114 | `300` reads as 300 |
| Timing.ApplyTimingModifiers | packages/events/src/timing-modifiers.ts:37-56 | debounce wins over throttle, and the wait is looked for behind the winner: the decimal text of n right there makes it n |
| TimeTravel.Devtools.Assign | packages/devtools-core/src/index.ts:322-376 | an assignment is recorded unless a replay or restore makes it, and the oldest changes beyond the limit are dropped |
| TimeTravel.Devtools.AssignAll | packages/devtools-core/src/index.ts:322-376 | a run of assignments leaves the values and the timeline that the laws below speak of |
| TimeTravel.Devtools.Restore | packages/devtools-core/src/index.ts:470-520 | a malformed or incompatible snapshot is refused before anything changes; otherwise signals known to the snapshot get its values, the others stay, and nothing is recorded |
| TimeTravel.AcceptedIff | packages/devtools-core/src/index.ts:470-500 | accepted are exactly snapshots with a finite time, version 1.5.0 and a value for every signal; another version is called incompatible, everything else malformed |
| TimeTravel.TakenSnapshotsAreAccepted | packages/devtools-core/src/index.ts:445-489 | what `snapshot` takes is accepted, with the values it was taken of |
| TimeTravel.Devtools.Replay | packages/devtools-core/src/index.ts:525-565 | the loop applies new values forwards or old values backwards between the clamped ends, with the assignments of other code in the pauses in between, and records none of them; a speed that rounds the delay away leaves no pauses |
| TimeTravel.WaitsIffSlow | packages/devtools-core/src/index.ts:552-557 | there are pauses if and only if the speed is at most 10 |
| TimeTravel.ReplayStaysInside | packages/devtools-core/src/index.ts:534-537 | an end outside the timeline counts as the nearer end |
| TimeTravel.QuietReplay | packages/devtools-core/src/index.ts:534-561 | with nothing assigned in the pauses it is the replay of the laws below |
| TimeTravel.OverwrittenPausesLeaveNoTrace | packages/devtools-core/src/index.ts:540-561 | a signal ends as if there were no pauses if each pause that assigns it is followed by a step that sets it |
| TimeTravel.PausedAssignmentStays | packages/devtools-core/src/index.ts:540-561 | a signal assigned in a pause and by nothing later keeps that value |
| TimeTravel.RecordingKeepsYoungest | packages/devtools-core/src/index.ts:362-365 | after any run of changes the timeline is the youngest part of the whole history |
| TimeTravel.TimelineIsChained | packages/devtools-core/src/index.ts:353-362 | a change's old value is the new value of the previous change of the same signal |
| TimeTravel.ReplayBackShowsStateBefore | packages/devtools-core/src/index.ts:534-561 | `replay(last, k)` shows the state before change k if and only if k is not the last change or that change changed nothing |
| TimeTravel.ReplayForthRestoresPresent | packages/devtools-core/src/index.ts:534-561 | `replay(k, last)` from there restores the present |
| TimeTravel.Devtools.RestoreUndoesAssignments | packages/devtools-core/src/index.ts:502-517 | snapshot, any run of assignments, restore: the values are back and the timeline still holds the assignments |
| FetchRace.FetchDirective.PerformFetch | packages/data/src/fetcher.ts:303-330 | an out-of-date fetch stops, a current one shows loading and makes one request |
| FetchRace.FetchDirective.EvaluateAndFetch | packages/data/src/fetcher.ts:546-566 | a new fetch aborts the current controller, takes the next id and a fresh controller |
| FetchRace.FetchDirective.OnResponse | packages/data/src/fetcher.ts:332-360 | status 429 before the last attempt aborts and waits, other failures end the fetch, success goes on to the body |
| FetchRace.StatusDecides | packages/data/src/fetcher.ts:332-360 | 200 to 299 go on to the body, 429 before the third retry gives up its controller and waits, anything else ends the fetch and is shown if it is the current one |
| FetchRace.FetchDirective.OnDelayOver | packages/data/src/fetcher.ts:341-353 | a retry goes on only if the fetch is still the current one |
| FetchRace.FetchDirective.Cleanup | packages/data/src/fetcher.ts:576-605 | advances the id and aborts, once |
| FetchRace.StepKeepsInv | packages/data/src/fetcher.ts:303-605 | every step of the protocol keeps ids, controllers, aborts and request counts in step |
| FetchRace.EveryMoment | packages/data/src/fetcher.ts:332-387 | at every moment of every run: at most four requests per fetch, a loading display has its fetch under way, and the current fetch never ends silently |
| FetchRace.LastFetchWins | packages/data/src/fetcher.ts:303-387 | in any interleaving what is shown is what the last started fetch would show if it were the only one |
| FetchRace.NothingAfterCleanup | packages/data/src/fetcher.ts:576-605 | after cleanup the state never changes and no request is made |
| FetchRace.AnswerStandsIffNothingInFlight | packages/data/src/fetcher.ts:467-544 | what a cached or invalid evaluation shows stands until the next evaluation if and only if the previous fetch was over |
| FetchRace.OlderFetchOverwritesAnswer | packages/data/src/fetcher.ts:467-544 | a run in which an older fetch replaces the cached answer of a newer URL |
| FetchRace.OnlyFirstAttemptsAreAborted | packages/data/src/fetcher.ts:332-357 | a new fetch aborts the request under way if and only if that is a first attempt |
| FetchRace.RetryEscapesTheAbort | packages/data/src/fetcher.ts:332-357 | a run in which a retry goes on requesting, not aborted, after a newer fetch has started |
| Components.BuildSlotContents | packages/components/src/processor.ts:275-289 | the loop groups the children by slot name, keeping their order |
| SlotFilling.GroupByPosition | packages/components/src/processor.ts:275-289 | a slot gets the children that ask for it, each behind those that were given before |
| SlotFilling.FillSlots | packages/components/src/processor.ts:236-258 | the loop over the slots, each of which takes its children from wherever they are, leaves the template filled as the laws below say, if every element is there once |
| Components.ChildrenLandOnceOrAreLost | packages/components/src/processor.ts:236-257 | a child lands in the filled template exactly once if the last slot of its name stands outside other slots, and nowhere otherwise |
| Components.SlotsLeftWereBrought | packages/components/src/processor.ts:236-257 | the slots found after filling are exactly those that came with children that found room |
| Components.LacksSlot | packages/components/src/processor.ts:385-394 | the warning as the code computes it, after the filling |
| Components.WarningIsRightIff | packages/components/src/processor.ts:381-394 | the warning tells that the template has no slot if and only if there is no slot content, or no slot, or a child that found room brought a slot |
| Components.WarnsAboutFilledSlot | packages/components/src/processor.ts:381-394 | a template that is a lone slot, filled by a child, is warned about |
| Components.SlotContentKeepsItsContextIff | packages/components/src/processor.ts:403-418 | a given child is walked with the context of the place of use if and only if the last slot of its name is a direct child of the template, and with the component's own context if that slot is deeper |
| Components.Processor.Walk | packages/components/src/processor.ts:318-474 | the walk ends for every finite registry, circular ones included, leaves the stack as it found it and computes the expansion, which `ComponentTrees.ExpansionIff` describes place by place |
| Components.Processor.ProcessComponent | packages/components/src/processor.ts:337-350 | a tag already on the stack is an error, any other is expanded with it on the stack, and the stack is restored either way |
| ComponentTrees.ExpansionIff | packages/components/src/processor.ts:337-418 | the expansion is the one tree that has at every place the element that stood there and inside it what belongs there, for a component its filled template; it is reached if and only if no component is nested in one of its own tag or one under way |
| ComponentTrees.EveryElementInItsPlace | packages/components/src/processor.ts:396-418 | the same by position: at every position stands the element meant there, and none elsewhere |
| ComponentTrees.NoComponentNothingChanges | packages/components/src/processor.ts:326-335 | where no registered tag occurs the nodes come back as they are |
| ComponentTrees.CardHoldsItsTemplate | packages/components/src/processor.ts:396-401 | `my-card` with a paragraph as template holds that paragraph |
| Components.CircularIffRepeated | packages/components/src/processor.ts:337-350 | the circular error is raised if and only if some component is nested, through filled templates, in one of its own tag or in one under way |
| Components.FailureHasCause | packages/components/src/processor.ts:341-349 | the tag named in the error is that component's |
| Components.NestingIsBounded | packages/components/src/processor.ts:54 | where expansion succeeds, components are never nested deeper than there are registered tags |
| Components.GivenToItselfIsCalledCircular | packages/components/src/processor.ts:337-350 | a registry without any reference between templates, and a use of it that is called circular |
| Components.FalseAlarmIffContent | packages/components/src/processor.ts:337-350 | with templates that do not refer back to their own component, directly or through others, the circular error is raised if and only if a component is nested in one of its own tag and, on the way, some component came as slot content |
| Components.NoContentNoFalseAlarm | packages/components/src/processor.ts:337-350 | where no component is given content, a circular error means that some component does refer back to itself |

## Left out

- SharedCache.Cache.InvalidateByTags: the order within a bucket is that of the tag index, which AddTags and Untag keep; no law over whole runs says which key was written first.
- Shared cache: eviction callbacks and their reasons, `stats`, `isStale`, `size`, names and the `signal` adapter. Loaders and callbacks do not re-enter the cache, the clock stands still within one operation, `sizeOf` is a function, and finite numbers are reals.
- Shared cache: a fractional `maxSize` is modelled as the capacity below it, which admits the same sizes.
- CacheLoads.SingleFlight: clears during a load are excluded, because `clear()` forgets the pending loads; OldLoadSurvivesClear shows what then happens.
- CacheLoads.LoadIsStoredExactlyIfUntouched: stated for runs without `clear()`, as the counter is shared between old and new loads; GuardExactIffNoRival says exactly when the guard holds.
- CacheInclusion.SmallerLruIsIncluded: ttl `never`, no byte budget, and loads committed at once; with expiry or budgets eviction depends on more than the order.
- ExpressionCache.Compiler: lexer, parser, validator and sanitiser are functions given from outside.
- KeyedList.ForEffect.Run: the key is a function of item and index, the placeholder stays in its parent, and teardowns do not touch the list. Item and index signals are the fields of the entry; cloning and child directives are not part of this model.
- The other emitted directives of the compiler: they are emitted as text for an evaluator that is not part of this model.
- EditDistance.Levenshtein: characters are UTF-16 units.
- Csv.RoundTrip: the reader takes separators of one character; which longer ones lose nothing is said without a reader. Files and downloads, and readers that take a trailing line break as the end of the last line, are not part of this model.
- CsvSeparators.FaithfulIffTelling: separators of several characters with a quote among them are not covered; whether they lose cells depends on how their quotes pair with those of the cells.
- TableView.PagesPartitionTheRows: page sizes are whole numbers of at least 1. Filtering and sorting themselves are left out.
- Dependencies.ExtractionIsSound: one direction only, as DeadBranchIsHarmless shows that a missed signal need not matter where a branch is never taken; SoundIffNothingHidden has both for expressions without branches. The evaluator follows the source's over the node kinds of the syntax tree, with operators, calls and property reads as functions of values; a closure is its code with the values it can see when it is made, where the code reads them when it is called; built-in names of the prototype are not modelled.
- DependencyUses.ExtractsEveryUseOnce: stated for names without a dot and with a name behind every dot, which lexer and parser guarantee.
- Dependencies.ExtractPath: how a literal prints is a function given from outside.
- Base64Url.RoundTrip: `btoa` and `atob` are written out after their standard; the fallback through Node buffers is not modelled.
- BindingCache.SignatureIsInjective: stated for names without `=`, as in HTML, and without a bar. Garbage collection of elements is not modelled.
- Timing.ApplyTimingModifiers: numbers too large for a double are not modelled.
- TimeTravel.Devtools.Replay: sampling, captured copies of values, dead or read-only signals, and a second replay or restore, or a cleared timeline, during the pauses of the first are not modelled.
- FetchRace: building the URL, query parameters, the cache itself and the delay of a retry are not modelled; an answer arrives as a step with its status or data.
- Components: props and what a context holds are not modelled, only which of the two contexts a node is walked with. Directives other than components are not part of the walk.
- SlotFilling.FillSlots: on values; the children of one slot move in one step. It is proved for templates and content in which every element is there once, as in a document; the walk takes the filled template as a whole.
- Network, storage, cookies, cryptographic primitives, token flows, rendering, routing, charts, error catalogues and command-line tools: foreign calls or data without an algorithm of their own.
