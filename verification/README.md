# Verified model of a telemetry store

A Dafny model of a single-writer OpenTelemetry store and of the code that must agree with it: the derived tables the
writer maintains, the window queries that read them, the search language that runs on the server and in the browser,
the canonical attribute encoding, and two delivery protocols. Most of that code is a fast form of something simple; the
theorems say that the fast form and the simple one coincide, over every input or every run.

| Files | What they model |
|---|---|
| `Order`, `Filters`, `Rows` | byte order of ids, WHERE and DELETE on keyless tables, row types |
| `TraceSummary`, `SummaryState`, `TraceDetail` | the aggregation query as a declarative definition, the incremental merge, the detail page's own reduction |
| `Database`, `TraceTables`, `Dimensions`, `LruSet`, `Storage`, `Redelivery`, `Convert` | the writer as a class over its tables and cache, one method per message, failures and rollbacks included; runs; conversion of payloads |
| `MetricDerivation`, `Broadcast`, `MetricAggregate`, `ChartBuckets` | deltas by `lag` over a window plus a predecessor, coalesced broadcast windows, facet aggregation, the browser's bucketing |
| `Distribution`, `Quantile` | cumulative histogram subtraction, bucket building, interpolated distribution function, bisection |
| `JsonString`, `SearchSyntax`, `Patterns`, `JsonPointer`, `LogSearch`, `LogFilter` | tokenizer, parser, serializer, the compiler to three-valued SQL, the browser's matcher, filter drafts |
| `AttrEncoding`, `HashStreams` | the tagged, length-prefixed, key-sorted encoding and the byte streams under the dimension hashes |
| `CommitDelivery`, `LiveTraceSearch` | the commit-delivery pipeline and the versioned live revalidation as state machines over all interleavings |
| `Sorting`, `Paging`, `PageQueries` | ORDER BY, and keyset pages for logs, traces and span links |

Times are integer nanoseconds and floats are reals. Row keys obtained by hashing are opaque numbers in the writer model;
`HashStreams` treats the bytes under them. A JavaScript or Go string is a sequence of characters. SQL statements are
modelled by their effect on tables, transactions as atomic; clock readings, ids, file sizes and failure points are
parameters.

## What the model found

Eleven promises hold only under a condition. Each is proved as an exact condition, with a lemma at a concrete input
that breaks it.

- A clear that stops half way leaves the store consistent exactly when `ClearIsSafe` holds: it must not stop after
  deleting links of spans that have some, after deleting spans but not their summaries, or between deleting resources
  and forgetting the resource cache (`Storage.Storage.PerformClear`, `Storage.InterruptedClearsHarm`).
- The metric list's point count differs from the points shown exactly at points whose predecessor recorded NULL
  (`MetricDerivation.CountedIffShown`, `MetricDerivation.CountedButNotShown`).
- Running totals of delta series start at the window, not at the beginning of the history, and so depend on what else
  is in a broadcast batch (`MetricDerivation.WindowTotalIsWholeIff`, `MetricDerivation.LaterWindowTotalsLess`,
  `Broadcast.BatchIsCommitByCommit`); everything else is independent of the window.
- Browser and server cut time into the same buckets exactly when the bucket width divides the server's anchor
  (`ChartBuckets.GridsAgreeIff`, `ChartBuckets.SevenSecondGridsDiffer`).
- Browser and server show the same mean of a distribution exactly when every counted observation came with a sum, or
  the sums add up to zero: the server divides by all observations, the browser by those with a sum
  (`ChartBuckets.ChartMatchesServerIff`, `ChartBuckets.HalfSummedParts`).
- A coarse group's mean is the weighted mean of its finer groups' means exactly when groups that counted nothing carry
  no sum (`MetricAggregate.CoarseMeanIsWeighted`, `MetricAggregate.IdleSumParts`).
- Reading a histogram's distribution function at a bound gives the count up to it exactly when a first bucket above the
  bound and an overflow bucket that ends on it balance (`Distribution.UpToAtBound`,
  `Distribution.OverflowIsReadAtBound`).
- The attribute encoding of a map with a repeated key keeps only the first value, written as often as the key occurs
  (`AttrEncoding.RepeatedKeyLosesValues`; `AttrEncoding.MapsEncodeAlike` is the exact condition).
- Two different resources feed their hash the same bytes exactly when one's schema URL is the decimal numeral of the
  other's dropped-attribute count and the latter has no schema URL (`HashStreams.ResourcesShareIff`,
  `HashStreams.SchemaThreeCollides`).
- Server and browser disagree on some filter of a numeric attribute exactly when they write the number differently
  (`LogSearch.NumbersAgreeIff`, `LogSearch.BigNumberParts`).
- They disagree on some free text exactly when one side has a text, as of a JSON column it writes with `<`, `>` or `&`
  escaped, that the other side has nowhere (`LogSearch.FreeTextAgreesIff`, `JsonString.LiteralsAgreeIff`,
  `LogSearch.AngleBracketParts`).

## Model

| member | source | states |
|---|---|---|
| TraceSummary.MergeKeepsAggregate | internal/storage/trace_summary.go:56-101 | merging one new span into a summary that is the full SQL aggregation of a trace's spans gives the full aggregation with that span: bounds, counts, error flag, first seen, root and earliest span |
| TraceSummary.MergeStartsAggregate | internal/storage/trace_summary.go:56-92 | a first span starts a summary that is the aggregation of that span alone |
| TraceSummary.AggregatesAgree | internal/storage/query_trace.go:226-291 | the aggregation depends on the set of spans only: row order and ingestion times change nothing but first seen |
| TraceSummary.AggregateIsUnique | internal/storage/query_trace.go:226-291 | the declarative definition of the aggregation admits one row |
| TraceSummary.RebuiltIsAggregate | internal/storage/trace_summary.go:358-425 | the rebuild query keeps of each span key the row ingested first and its min/max/count/row_number columns are exactly the aggregation of what is kept, repeated keys or not |
| SummaryState.TraceSummaryState.MergeSpan | internal/storage/trace_summary.go:56-101 | the field-by-field update of the running state computes the merge of its view with the span |
| SummaryState.MergeTraceSummaryStates | internal/storage/trace_summary.go:155-165 | folding a batch through shared state objects gives, per trace, the fold of that trace's rows over its stored summary |
| SummaryState.FoldedByTrace | internal/storage/trace_summary.go:155-165 | the rows of other traces play no part in a trace's folded summary |
| SummaryState.FoldKeepsSummary | internal/storage/trace_summary.go:155-165 | folding a batch's new rows into a stored summary yields the aggregation of old and new spans together |
| TraceDetail.PickRootSpan | internal/storage/query_trace.go:593-606 | the loop returns the longest parentless span, equal durations by span id, in whatever order the spans come |
| TraceDetail.SummarizeSpans | internal/storage/query_trace.go:536-591 | the detail page's loop computes the aggregation of the spans it read, with the root's service or the earliest span's |
| TraceDetail.DetailAgreesWithStored | internal/storage/query_trace.go:536-606 | detail page and stored summary show the same bounds, counts, flag, root and service for the same spans |
| LruSet.LruSet.Contains | internal/storage/lru.go:23-32 | a hit moves exactly that key to the front and counts as a touch; a miss changes nothing; either way the set stays the most recently touched keys of its whole history |
| LruSet.LruSet.Add | internal/storage/lru.go:34-48 | the key is recorded in front and only the least recent key past capacity is evicted, so the set stays the most recently touched keys of its whole history |
| LruSet.KeepsMostRecent | internal/storage/lru.go:23-48 | what the set holds in terms of its touches: no key twice, every key held was last touched after every key left out, and one is left out only when the set is full |
| LruSet.TouchKeepsRecent | internal/storage/lru.go:23-48 | one more touch turns the bounded list of a history into the bounded list of the longer history, for any capacity |
| Database.SummariesAreReferenced | internal/storage/storage.go:1270-1305 | pruning never reads trace_summaries, yet every resource a summary names is still stored |
| TraceTables.NewRowsAreNew | internal/storage/trace_summary.go:234-316 | deduplication returns rows with keys that are neither stored nor repeated |
| TraceTables.NewRowsCover | internal/storage/trace_summary.go:234-316 | and leaves out only rows whose key is stored or already returned |
| TraceTables.SpansAreStored | internal/storage/trace_summary.go:318-356 | after a committed batch every row of a kept trace whose ids are neither stored nor on an earlier row has a stored span with each of its columns, its link count and the ingestion time; old spans of kept traces stay, and there are no others |
| TraceTables.LinksAreStored | internal/storage/span_links.go:63-79 | likewise each link of those rows is stored under its span and its position, with its own target; old links of kept traces stay, and there are no others |
| TraceTables.TracesAreDropped | internal/storage/trace_summary.go:505-540 | dropped are exactly the traces with a new row and more than 10,000 distinct span ids, stored or arriving; each leaves a tombstone with that count and the time, and other tombstones are untouched |
| TraceTables.WriteKeepsTraces | internal/storage/trace_summary.go:474-580 | a trace write keeps summaries exact, keys unique, traces within 10,000 spans, tombstoned traces empty and link ordinals complete |
| TraceTables.SweepKeepsTraces | internal/storage/storage.go:1204-1258 | so does a retention delete with its partial rebuild |
| Redelivery.RunHoldsDelivered | internal/storage/trace_summary.go:474-580 | after any run of trace batches every delivered row of a live trace is stored, column by column and once, every stored span is some delivered row, and a tombstoned trace stores nothing |
| Redelivery.TombstonedIffOverLimit | internal/storage/trace_summary.go:505-540 | a trace is tombstoned exactly when more than 10,000 distinct span ids of it were delivered |
| Redelivery.StepStoresRows | internal/storage/storage.go:692-778 | one delivered batch stores the new rows of traces without a tombstone, span by span and link by link, and tombstones exactly the traces it drops |
| Redelivery.DeliveryOrderIsIrrelevant | internal/storage/storage.go:692-778 | the same spans in any order, split into any batches and redelivered at will end in the same spans, tombstones and summaries, first seen aside |
| Dimensions.MetricsKeepReferences | internal/storage/storage.go:795-921 | a committed metric batch leaves every reference resolved |
| Dimensions.UpsertAddsResources | internal/storage/storage.go:1054-1082 | an upsert keeps every stored resource as it is, stores a new one as its first row has it, and no other |
| Dimensions.MergeMergesSeries | internal/storage/storage.go:1089-1160 | a known series keeps its identity, resource and first-seen time; a new one has them from its first row and was first seen now; both take the last row's description and were last seen now; series without a row are untouched |
| Dimensions.MergeAddsLayouts | internal/storage/storage.go:923-962 | a stored layout stays, a new one is as its first row has it, and there is no other |
| Dimensions.MetricsAreStored | internal/storage/storage.go:795-921 | a committed metric batch appends its points and exemplars, merges its dimension rows as above, and leaves spans, links, summaries, tombstones and logs as they were |
| Dimensions.PruneKeepsReferences | internal/storage/storage.go:1270-1305 | a prune keeps every reference resolved, wherever among its statements it stops |
| Dimensions.PruneLeavesNoOrphans | internal/storage/storage.go:1262-1305 | after a full prune every remaining dimension row is in use, series orphaned in the same pass included |
| Dimensions.PrunedAsUsed | internal/storage/storage.go:1270-1305 | wherever it stops, a prune keeps exactly the series and layouts some point uses and the resources some span, log or remaining series names, each row as it was, and touches no fact |
| Dimensions.DeleteKeepsReferences | internal/storage/storage.go:1204-1258 | deleting old facts leaves no exemplar without its point and no other dangling reference |
| Dimensions.DeleteKeepsSince | internal/storage/storage.go:1204-1258 | row by row and as often as before: spans, points and logs at or after the cutoff stay, links and exemplars go exactly with a deleted span or point, tombstones last seen before it go, and dimension rows stay |
| Dimensions.DeleteRemovesSomething | internal/storage/storage.go:1319-1357 | a cutoff past some stored fact deletes at least one row |
| Storage.Storage.UpsertResources | internal/storage/storage.go:1054-1082 | skipping cached hashes stores what upserting every row would, resource by resource, and the cache stays sound even when an upsert fails |
| Storage.Storage.FilterDroppedTraceRows | internal/storage/storage.go:730-778 | exactly the rows of live traces pass, each as often as it came, and the tombstones they met, and only those, were last seen now |
| Storage.Storage.FilterNewSpans | internal/storage/trace_summary.go:234-316 | looking up only traces that have a summary returns the same rows as looking up every key |
| Storage.LookupIsExact | internal/storage/trace_summary.go:234-316 | the skipped lookups cannot miss a stored span, because a trace without a summary has none |
| Storage.Storage.DropOversized | internal/storage/trace_summary.go:505-540 | exactly the touched traces whose running count exceeds the limit are deleted everywhere and tombstoned |
| Storage.Storage.AppendSpanLinks | internal/storage/span_links.go:63-79 | each inserted span's links are appended numbered from zero |
| Storage.MergesAreExact | internal/storage/trace_summary.go:474-580 | the running state of a touched trace is the aggregation of its stored and inserted spans |
| Storage.WrittenAsSpecified | internal/storage/trace_summary.go:474-580 | deciding by the running count and merging instead of aggregating does what the specification of a trace write says |
| Storage.BatchIsStored | internal/storage/trace_summary.go:474-580 | a step of the specification stores the batch's new rows column by column, drops the traces over the limit and leaves every other table alone |
| Storage.BatchIsAnnounced | internal/storage/trace_summary.go:564-576 | the event names each new row of a kept trace once, the summaries of just those traces as they are stored, and nothing else |
| Storage.Storage.WriteTraceRowsTransaction | internal/storage/trace_summary.go:474-580 | one batch stores its new rows span by span and link by link, drops and tombstones the traces over the limit, or leaves no trace; the event announces exactly the new rows still stored, with their stored summaries |
| Storage.Storage.WriteTraces | internal/storage/storage.go:692-729 | a trace message, failing at any point, keeps every invariant, refreshes exactly the tombstones it met once it gets that far, and is announced only if it committed |
| Storage.Storage.WriteMetrics | internal/storage/storage.go:795-921 | a metric message is all or nothing: committed, its points and exemplars are appended and its series, layouts and resources merged; rolled back, it leaves every table as it was and forgets the cache that may name rolled-back rows |
| Storage.Storage.WriteLogs | internal/storage/storage.go:964-1016 | a log message stores its resources up to the failing one and appends its records only if all succeeded |
| Storage.Storage.DeleteFactsBefore | internal/storage/storage.go:1204-1258 | the sweep transaction deletes exactly the facts before the cutoff, with their links and exemplars and the old tombstones, row by row; rebuilds affected summaries and counts what it deleted |
| Storage.Storage.PruneDimensions | internal/storage/storage.go:1270-1305 | exactly the dimension rows nothing uses go, the cache is forgotten, and a failed prune still leaves a sound cache |
| Storage.Storage.OldestFactTimestamp | internal/storage/storage.go:1391-1425 | the least timestamp over spans, points and logs, or none for empty tables |
| Storage.Storage.DeleteAndPrune | internal/storage/storage.go:1163-1202 | a failed delete is rolled back whole, a failed prune or checkpoint leaves exactly the facts before the cutoff deleted, and the count is exact in every case |
| Storage.Storage.TrimOldestDay | internal/storage/storage.go:1319-1357 | each pass removes at least one row unless its delete fails, none a day or more newer than the oldest, and adds none; a failed delete leaves everything, a failed prune part of itself |
| Storage.Storage.EnforceMaxSize | internal/storage/storage.go:1319-1357 | whatever fails in whichever pass, spans, points and logs before minus after are reported; without a failure the loop ends under the ceiling, with empty fact tables or after 60 passes |
| Storage.Storage.PerformSweep | internal/storage/storage.go:1163-1202 | wherever a sweep fails it keeps every invariant and the published count is exact; once its delete commits nothing older than the cutoff is left, and without a size limit nothing newer is gone |
| Storage.Storage.PerformClear | internal/storage/storage.go:1362-1375 | the state after any number of its statements: all ten tables and the cache empty when it succeeds, and the exact condition under which a partial clear is consistent |
| Storage.ClearedIsConsistent | internal/storage/storage.go:1362-1375 | which partial clears keep the tables consistent, for every database |
| Storage.InterruptedClearsHarm | internal/storage/storage.go:1362-1375 | a store of one span and one link: stopped after 1, 2 or 9 statements, a clear leaves a span without its link, a summary without spans, or a cached resource that is gone |
| Storage.Storage.RebuildAllTraceSummaries | internal/storage/trace_summary.go:429-456 | whatever tables and summaries it finds, every summary becomes the aggregation of its trace's deduplicated spans, which with unique keys is the exact summary |
| Storage.Storage.Run | internal/storage/storage.go:516-549 | between any two messages of any run: exact summaries, unique spans, limits, complete link ordinals, resolved references and a sound cache; after a run without sweeps and clears, failures included, points, exemplars and logs are the committed batches' in order, and from empty trace tables each delivered span is stored once, column by column, unless its trace had more than 10,000 |
| Convert.ConvertTraces | internal/storage/convert.go:195-247 | every span of the payload stands at its place in the batch, column by column, under its own resource, and each resource once, as it came first |
| Convert.ConvertLogs | internal/storage/convert.go:266-316 | likewise every log record, at its own time, or at the observed time when it has none |
| Convert.SpansAreHeld | internal/storage/convert.go:195-247 | the place of a span: after the spans of earlier resources and scopes, and there are no other rows |
| Convert.LogsAreHeld | internal/storage/convert.go:266-316 | the same of log records |
| Convert.ResourcesAreHeld | internal/storage/convert.go:195-247 | one resource row for each hash of the payload, that of the first resource with it |
| Convert.PayloadIsWellFormed | internal/storage/convert.go:327-532 | every series, layout, resource and exemplar reference of a converted metric payload resolves inside the batch, and no dimension row repeats |
| Convert.PayloadIsHeld | internal/storage/convert.go:327-583 | the batch holds every data point in order with its time, series key and, for histograms only, layout hash; every exemplar in order under its point's id, none for summaries; and for each series the first point's service, name, description and resource |
| Convert.ConvertMetrics | internal/storage/convert.go:327-376 | the nested loops and seen-sets build that batch: point by point, exemplar by exemplar, one row for each resource, series and layout |
| MetricDerivation.WindowDerivesAsHistory | internal/storage/query_metric.go:415-554 | at each window point, the window plus one predecessor derives what the whole history derives, delta totals aside |
| MetricDerivation.WindowEqualsHistory | internal/storage/query_metric.go:415-554 | for every history, resets and NULLs included, and every window, the points shown are those of the whole history restricted to the window |
| MetricDerivation.CounterShowsGrowth | internal/storage/query_metric.go:418-429 | of two consecutive points of a counter the later shows its growth, which added to the earlier value gives its own, or all of its value at a reset, and its value as the total |
| MetricDerivation.DistributionShowsGrowth | internal/storage/query_metric.go:431-454 | the same of count and sum of a cumulative distribution |
| MetricDerivation.RecordedIsShown | internal/storage/query_metric.go:415-457 | gauges, deltas and levels are shown as recorded, with the ids, times and extremes of every point |
| MetricDerivation.ShownMeanIsMean | internal/storage/query_metric.go:488-497 | the mean shown of a distribution times its count is its sum, and 0 without observations or a sum |
| MetricDerivation.WindowShowsGrowth | internal/storage/query_metric.go:415-554 | the values a window shows of consecutive points add up to the last minus the one before the first, plus what each reset lost; without resets to the growth alone |
| MetricDerivation.RunningAddsUp | internal/storage/query_metric.go:426-454 | the total of a delta series is the sum of everything recorded from its first point on |
| MetricDerivation.PredecessorsAreBaselines | internal/storage/query_metric.go:532-551 | a predecessor row has nothing to derive a delta against |
| MetricDerivation.NoPredecessorIsShown | internal/graphql/metric_resolver.go:53-62 | so dropping baselines leaves only points of the window |
| MetricDerivation.FilterDerivedPoints | internal/storage/query_metric.go:102-114 | the loop keeps exactly the points with a value, and for distributions a count, in order |
| MetricDerivation.CountedIffShown | internal/storage/query_metric.go:224-305 | the list's count and the points shown agree exactly where the predecessor did not record NULL |
| MetricDerivation.CountedButNotShown | internal/storage/query_metric.go:224-305 | a counter that recorded NULL and then 5: the list counts the second point and no reader is shown it |
| MetricDerivation.RunningStartsAtWindow | internal/storage/query_metric.go:426-454 | a delta series' total in a window is its whole-history total minus the total before the window |
| MetricDerivation.WindowTotalIsWholeIff | internal/storage/query_metric.go:426-454 | the two totals are equal exactly when nothing was recorded before the window or it added up to zero |
| MetricDerivation.LaterWindowTotalsLess | internal/storage/query_metric.go:426-454 | 5 then 2 in a delta counter: a window holding only the second point totals 2, the history 7 |
| MetricDerivation.DerivedAlikeIff | internal/storage/query_metric.go:415-554 | a point of two windows, one inside the other, is derived alike in both exactly when the wider one adds nothing to its running totals |
| Broadcast.PrepareMetricBroadcast | internal/broadcast/broadcast.go:219-259 | groups a commit's points by metric in order of appearance, each with its ids and spanning time range |
| Broadcast.KeysAppearInOrder | internal/broadcast/broadcast.go:219-259 | the metrics of a commit: each with a point, once, in the order of their first points |
| Broadcast.WidenedWindowShowsSame | internal/broadcast/broadcast.go:162-217 | any window covering a commit's group shows, for the group's ids, exactly the rows a query over the whole history would and no predecessor, all but running totals as there |
| Broadcast.BroadcastMetricDeliveries | internal/broadcast/broadcast.go:162-291 | adjacent commits sent through one window per metric, spanned exactly by their points, emit every commit's own messages, running totals included, in commit order then group order |
| Broadcast.CommitMessagesSay | internal/broadcast/broadcast.go:261-291 | a commit's messages: one for each metric with something to show, in order of first appearance, holding a point of each stored row of the commit that has a delta, and no others |
| Broadcast.MessagesSayCommits | internal/broadcast/broadcast.go:162-217 | the messages of a batch are those of its commits, one commit after the other |
| Broadcast.BatchIsCommitByCommit | internal/broadcast/broadcast.go:162-217 | a batch sends message for message what its commits sent one by one would: the same metrics and rows, and the very same messages exactly when its windows add nothing to the running totals announced |
| MetricAggregate.RowsRollUp | internal/storage/query_metric_aggregate.go:113-144 | a group's emitted row is, column by column, the sum of the rows emitted for its finer groups: Gauges averaged per series first, and no mass lost to HAVING |
| MetricAggregate.BucketsConserve | internal/storage/query_metric_aggregate.go:113-134 | a group's buckets add up to its per-series deltas over the window |
| MetricAggregate.DistributionIsWeightedMean | internal/storage/query_metric_aggregate.go:135-144 | the mean of everything is the count-weighted mean of the parts' shown means exactly when nothing was counted or the sums of the parts that counted nothing add up to zero |
| MetricAggregate.CoarseMeanIsWeighted | internal/storage/query_metric_aggregate.go:113-144 | the same for the query: a group's emitted mean against those emitted for its finer groups, idle ones included |
| MetricAggregate.IdleSumParts | internal/storage/query_metric_aggregate.go:135-144 | two observations summing to 8 beside none with a sum of 4: the mean shown is 6, while the parts' means weigh 8 |
| ChartBuckets.BucketStartFloors | frontend/src/lib/metric-chart-series.ts:40-45 | truncating division plus the negative correction is the floor to the grid, before 1970 too |
| ChartBuckets.GridsAgreeIff | internal/storage/query_metric_aggregate.go:113-117 | browser and server grids coincide exactly when the width divides the server's anchor |
| ChartBuckets.SevenSecondGridsDiffer | frontend/src/lib/metric-chart-series.ts:40-45 | with a width of seven seconds and DuckDB's anchor of 3 January 2000 the browser cuts at 0 and the server at -4 s |
| ChartBuckets.BucketRawMetricPoints | frontend/src/lib/metric-chart-series.ts:52-118 | the nested-map accumulation yields one value per non-empty bucket in ascending order of bucket start, contributors in first-seen order, drawn at the start or at the left edge of a fixed window |
| ChartBuckets.ShownAtStart | frontend/src/lib/metric-chart-series.ts:108-116 | without a fixed window a bucket is drawn less than a millisecond from its start, toward 1970 |
| ChartBuckets.ShownTimesAscend | frontend/src/lib/metric-chart-series.ts:108-116 | truncation and clamp never draw a later bucket left of an earlier one, nor any left of a fixed window |
| ChartBuckets.SamplesAreWellShaped | internal/storage/query_metric.go:405-454 | what is derived of converted points has a sum only where it has a count, and no negative count, so the comparison with the chart covers every stored history |
| ChartBuckets.ChartMatchesServerIff | frontend/src/lib/metric-chart-series.ts:47-118 | on one grid, browser and server show the same value in every bucket: always for scalars, and for distributions exactly when every counted observation came with a sum or the sums add up to zero |
| ChartBuckets.HalfSummedParts | frontend/src/lib/metric-chart-series.ts:79-104 | two points of two observations, of which only the second has a sum, 8: the server shows 2, the browser 4 |
| Distribution.SubtractCounts | internal/storage/query_metric_distribution.go:357-369 | position-wise differences exactly when the lengths match and no bucket went down |
| Distribution.BucketsForPoint | internal/storage/query_metric_distribution.go:371-436 | both loops emit, position by position, the non-empty buckets with their edges, or nothing for a misshapen point |
| Distribution.ExplicitBucketsAre | internal/storage/query_metric_distribution.go:371-404 | which buckets an explicit point has: bound to bound with that position's count, the first from the minimum and the last to the maximum when known, none empty |
| Distribution.ExponentialBucketsAre | internal/storage/query_metric_distribution.go:405-436 | which buckets an exponential point has: powers of its base from offset plus position to the next, mirrored for negative values, and the zero bucket between the thresholds |
| Distribution.EmittedMass | internal/storage/query_metric_distribution.go:371-436 | emitted mass equals the counts used exactly when the point has its layout's shape or counted nothing |
| Distribution.EmittedIsWellFormed | internal/storage/query_metric_distribution.go:371-436 | ascending bounds, and extremes that fit the outer buckets that hold something, leave no inverted or empty bucket |
| Distribution.UpToAtBound | internal/storage/query_metric_distribution.go:371-404 | at an explicit bound a point's buckets hold the count up to it, less a first bucket starting above it and plus an overflow bucket ending on it: exactly the count when those two balance |
| Distribution.OverflowIsReadAtBound | internal/storage/query_metric_distribution.go:387-404 | three observations above a last bound of 10 and no maximum: all are read at 10, where none was counted |
| Distribution.RawIff | internal/storage/query_metric_distribution.go:169-190 | a cumulative point contributes its raw counts exactly at a reset, a decreasing or reshaped bucket list, or an empty baseline |
| Distribution.ShareOfDelta | internal/storage/query_metric_distribution.go:169-190 | a delta point, or a cumulative one at a reset, adds what it recorded; a cumulative one without a baseline of its series and layout adds nothing |
| Distribution.ShareOfCumulative | internal/storage/query_metric_distribution.go:169-190 | a cumulative point that goes on from its baseline adds its growth, bucket by bucket, in count and in sum |
| Distribution.DistributionAccumulator.Add | internal/storage/query_metric_distribution.go:169-206 | one point adds its share to buckets, count, sum and extremes, or nothing without a baseline |
| Distribution.DistributionAccumulator.ReadStats | internal/storage/query_metric_distribution.go:208-223 | statistics exist only with observations and buckets, the mean only when every sum was known |
| Distribution.MetricDistributionStats | internal/storage/query_metric_distribution.go:103-158 | the row loop gathers each group from its own points, each against the row just before it, and returns the groups with statistics once each, ordered by group; count, mean and extremes are those of the contributing points |
| Distribution.StatsDescribe | internal/storage/query_metric_distribution.go:208-223 | a group has statistics exactly when it counted something in some bucket; the mean exists exactly when every contribution had a sum, and times the count is their sum; minimum and maximum are attained by contributing points and bound all of theirs |
| Distribution.PercentilesDescribe | internal/storage/query_metric_distribution.go:208-223 | P50, P90, P95 and P99 lie within the value range over 2^81 of the least value at which the merged buckets reach 0.50, 0.90, 0.95 and 0.99 of their total |
| Distribution.PercentilePoint | internal/storage/query_metric_distribution.go:208-223 | and without exponential points that least value always exists |
| Distribution.RunTelescopes | internal/storage/query_metric_distribution.go:103-206 | over a steady cumulative run, wherever it stands among the rows, count, sum and bucket mass grow by last minus baseline |
| Distribution.RunDistributionTelescopes | internal/storage/query_metric_distribution.go:103-206 | and so does the distribution function at every explicit bound at which no outer bucket that holds something misleads |
| Distribution.BucketsTelescope | internal/storage/query_metric_distribution.go:169-206 | between any two edges that the points of the run share, the buckets the group has gathered gain the last point's count minus the baseline's |
| Distribution.ExponentialSharesEdges | internal/storage/query_metric_distribution.go:405-436 | exponential points of one layout and equal offsets share all their edges |
| Distribution.ExplicitSharesEdges | internal/storage/query_metric_distribution.go:371-404 | explicit points of one layout share every pair of neighbouring bounds, and what they count there is that position's count |
| Distribution.PercentilesExist | internal/storage/query_metric_distribution.go:208-223 | whenever a group has statistics all four percentiles exist, whatever its points |
| Distribution.PercentilesFollowEdges | internal/storage/query_metric_distribution.go:208-223 | they ascend when the lowest edge gathered is not above the highest, and descend otherwise |
| Distribution.PercentilesOrdered | internal/storage/query_metric_distribution.go:208-223 | when outer buckets that hold something fit their extremes, P50 ≤ P90 ≤ P95 ≤ P99 in every group with statistics |
| Quantile.CdfGrows | internal/storage/query_metric_distribution.go:462-481 | the distribution function never decreases and stays between zero and the total |
| Quantile.CdfAtEdges | internal/storage/query_metric_distribution.go:462-481 | it is zero below the lowest edge and the total from the highest edge on |
| Quantile.HistogramCDF | internal/storage/query_metric_distribution.go:462-481 | the loop computes that function |
| Quantile.HistogramQuantile | internal/storage/query_metric_distribution.go:438-460 | the loop returns the middle of the 80-times halved bracket, or nothing without mass |
| Quantile.QuantileError | internal/storage/query_metric_distribution.go:438-460 | the estimate is within (max high − min low)/2^81 of the least point whose distribution value reaches q of the total |
| Quantile.LinearQuantileError | internal/storage/query_metric_distribution.go:438-460 | without logarithmically interpolated buckets that least point always exists, so the bound assumes nothing |
| Quantile.EstimateIsBracketed | internal/storage/query_metric_distribution.go:449-458 | whether or not such a point exists, the estimate is the middle of a bracket that narrow around the target mass |
| Quantile.QuantilesOrdered | internal/storage/query_metric_distribution.go:218-221 | a higher quantile never gets a lower estimate when the outer edges are in order, nor a higher one when they are crossed |
| AttrEncoding.RoundTrip | internal/storage/attrs.go:38-104 | any encoded value, however nested, followed by any bytes reads back as its canonical value and leaves exactly those bytes |
| AttrEncoding.KindIsFirstByte | internal/storage/hash.go:16-26 | an encoding starts with the byte 0 to 7 of its kind; a flag is one byte, a text or bytes follow their length |
| AttrEncoding.WordAfterKind | internal/storage/attrs.go:53-104 | the eight bytes after it, least significant first: the length, the count, the integer in two's complement or the double's bits |
| AttrEncoding.PrefixFree | internal/storage/attrs.go:38-104 | enc(v)+r = enc(w)+s exactly when v and w have the same canonical value and r = s |
| AttrEncoding.MapsEncodeAlike | internal/storage/attrs.go:38-51 | two maps encode alike exactly when they hold each key as often and the same canonical value under it |
| AttrEncoding.InsertionOrderIsIrrelevant | internal/storage/attrs.go:38-51 | the insertion order of distinct keys leaves no trace |
| AttrEncoding.EntriesAreReadBack | internal/storage/attrs.go:15-25 | nothing of a map with distinct keys is lost |
| AttrEncoding.RepeatedKeyLosesValues | internal/storage/attrs.go:46-50 | the later values of a repeated key are lost |
| AttrEncoding.Buffer.WriteBinaryUint64 | internal/storage/attrs.go:100-104 | eight bytes, least significant first |
| AttrEncoding.Buffer.WritePcommonValue | internal/storage/attrs.go:53-89 | appends exactly the value's encoding |
| AttrEncoding.Buffer.WritePcommonMap | internal/storage/attrs.go:38-51 | appends exactly the map's encoding, keys sorted |
| AttrEncoding.EncodeOTLPAttributes | internal/storage/attrs.go:20-25 | the version prefix followed by the map's encoding |
| HashStreams.SeriesStreamDetermines | internal/storage/hash.go:74-92 | equal streams exactly for equal series identities, despite the optional dropped-count field |
| HashStreams.SeriesStreamReads | internal/storage/hash.go:74-92 | read value by value by their tags, the stream holds the resource hash, the scope's schema URL, name, version, dropped count unless zero, and attributes, then name, type, number kind, unit, temporality, monotonicity and attributes |
| HashStreams.ResourcesShareIff | internal/storage/hash.go:36-48 | equal streams exactly for equal resources or one confusable pair, for all resources |
| HashStreams.ResourceStreamReads | internal/storage/hash.go:36-48 | the stream holds the schema URL unless empty, the dropped count unless zero, and the attributes |
| HashStreams.SchemaThreeCollides | internal/storage/hash.go:36-48 | schema URL "3" and a resource without one that dropped three attributes feed the hash the same bytes |
| HashStreams.LayoutStreamDetermines | internal/storage/hash.go:94-112 | equal streams exactly for equal layouts, absent optional parts included |
| HashStreams.LayoutStreamReads | internal/storage/hash.go:94-112 | the stream holds the kind, the number of bounds, the bounds in order, the scale and the zero threshold, absent ones as nil |
| HashStreams.HashSeries | internal/storage/hash.go:74-92 | the writer calls feed the hash that stream |
| HashStreams.HashResource | internal/storage/hash.go:36-48 | the writer calls feed the hash that stream, optional fields skipped |
| HashStreams.HistogramLayoutHash | internal/storage/hash.go:94-112 | the loop and the optional parts feed the hash that stream |
| JsonString.QuoteReads | frontend/src/lib/log-search.ts:114-116 | every string survives being written as a JSON literal and decoded (section 7 of RFC 8259) |
| JsonString.LiteralsAgreeIff | internal/storage/storage.go:1061 | the server's literal of a string and the browser's both read back, and are the same text, or even as long, exactly without <, >, &, U+2028 and U+2029 |
| SearchSyntax.Tokenize | internal/storage/log_search.go:33-59 | the start/quoted/escaped loop splits at blanks outside quotes, or reports an open quote |
| SearchSyntax.ParseSignalSearch | internal/storage/log_search.go:32-105 | the server's parser computes the grammar |
| SearchSyntax.ParseLogSearch | frontend/src/lib/log-search.ts:42-103 | the browser's parser computes the same grammar, so the two agree on every search |
| SearchSyntax.ScanQuoted | frontend/src/lib/log-search.ts:50-66 | a literal stays one token whatever blanks, quotes and backslashes it holds |
| SearchSyntax.TermReads | frontend/src/lib/log-search.ts:71-116 | reading a serialized well-formed term gives the term back |
| SearchSyntax.MixedSearchReads | internal/storage/log_search.go:32-105 | words and filters in any order parse to the filters in order and, as free text, the words other than AND joined by blanks |
| SearchSyntax.BlankSeparates | internal/storage/log_search.go:33-59 | space, tab, carriage return and line feed each separate two tokens |
| SearchSyntax.ParseInvertsSerialize | frontend/src/lib/log-search.ts:42-116 | any non-empty list of well-formed terms, serialized, joined by blanks and parsed, comes back in order with empty plain text |
| Patterns.GlobMatchesParts | internal/storage/log_search.go:190-194 | escaping and then turning `*` into `%` finds under LIKE exactly what the browser's split parts find |
| Patterns.OneStarMatches | internal/storage/log_search.go:190-194 | a value with one star matches the texts that begin with what stands before it and, after that, end with what stands behind it |
| Patterns.BetweenStars | frontend/src/lib/log-search.ts:137-140 | a value between two stars is found anywhere in a text |
| Patterns.EscapedIsLiteral | internal/storage/query.go:48-56 | an escaped pattern matches by equality only, up to case |
| Patterns.ContainsPatternFinds | internal/storage/query.go:50-56 | the contains pattern finds a literal anywhere, whatever wildcards it holds |
| Patterns.EscapeRegexReads | frontend/src/lib/log-search.ts:137-140 | an escaped part is matched literally by the regular expression |
| JsonPointer.PointerNamesKey | internal/storage/log_search.go:138-139 | the pointer built for a key resolves to exactly the member with that literal key (sections 3 and 4 of RFC 6901) |
| LogSearch.ComparisonsAgree | internal/storage/log_search.go:107-150 | the server's one expression and the browser's two steps recognise the same comparisons |
| LogSearch.LogSearchSQL | internal/storage/log_search.go:111-125 | the loop compiles free text and terms into the predicate, negation as NOT COALESCE |
| LogSearch.SearchSelects | internal/storage/log_search.go:111-125 | a search of words and filters selects exactly the records that every filter is true of and that contain the words as one text, if there are any |
| LogSearch.AttributeComparisonSelects | internal/storage/log_search.go:145-150 | >=, <=, > and < before a numeral y select a numeric attribute n exactly when n >= y, n <= y, n > y and n < y |
| LogSearch.SeverityComparisonSelects | internal/storage/log_search.go:170-181 | and the severity number alike |
| LogSearch.FreeTextSelects | internal/storage/query_log.go:36-50 | a free text selects a record exactly when body, service name, severity text, trace id, attributes or resource text contains it |
| LogSearch.FreeTextShows | frontend/src/lib/log-search.ts:118-129 | and the browser shows it when one of its texts does |
| LogSearch.QuotedFieldSelects | internal/storage/log_search.go:157-195 | a quoted filter on each built-in field selects the records whose column is that text up to case, ids only when not all zero |
| LogSearch.QuotedAttributeSelects | internal/storage/log_search.go:131-155 | a quoted filter on an attribute or resource attribute selects the records whose member with that literal key has that text |
| LogSearch.UnquotedAttributeSelects | internal/storage/log_search.go:151-155 | an unquoted value without a star selects the members with that text; with one star those whose text begins with what stands before it and then ends with what stands behind |
| LogSearch.SeverityNumberSelects | internal/storage/log_search.go:183-190 | a numeral selects exactly the records of that severity number |
| LogSearch.StarSelects | internal/storage/log_search.go:142-144 | an unquoted star asks for a member that is not null, a column that is not NULL |
| LogSearch.NegationSelects | internal/storage/log_search.go:111-125 | a negated filter selects exactly the records the filter does not |
| LogSearch.TermAgrees | internal/storage/log_search.go:131-195 | a compiled term, negated or not, is true in three-valued logic exactly when the browser's matcher accepts, missing keys, JSON nulls and ids included, on records whose numbers both sides write alike |
| LogSearch.SearchesAgree | frontend/src/lib/log-search.ts:118-165 | for every search text, the query selects exactly the records the browser shows, when both sides write the record's numbers alike and have the same texts to look for free text in |
| LogSearch.IdTextIsOrdinary | internal/storage/convert.go:303-304 | an id is converted to nothing or to all its digits with one not zero, so no stored id is mistaken for a missing one |
| LogSearch.FieldsAgree | frontend/src/lib/log-search.ts:15-24 | every filter on a built-in field, trace and span ids included, is answered alike on every record |
| LogSearch.FreeTextAgreesIff | frontend/src/lib/log-search.ts:118-129 | every free text selects a record exactly when the browser shows it, if and only if each text on one side occurs in some text on the other |
| LogSearch.AngleBracketParts | internal/storage/query_log.go:35-50 | a resource attribute `a<b`: searching for it, the browser shows the record and the query does not select it |
| LogSearch.NumbersAgreeIff | internal/storage/log_search.go:151-155 | a numeric attribute is found alike by every filter exactly when both sides write it alike |
| LogSearch.BigNumberParts | internal/storage/log_search.go:151-155 | the attribute 9007199254740993, which the browser reads as 9007199254740992: asking for it, only the query finds the record |
| LogFilter.AcceptedDraftIsWellFormed | frontend/src/lib/log-filter.ts:50-77 | every draft that validates yields a term the language can express |
| LogFilter.DraftNamesValue | frontend/src/lib/log-filter.ts:99-111 | a draft asks about the attribute or resource attribute of the literal key after the first dot |
| LogFilter.IsMeans | frontend/src/lib/log-filter.ts:112-125 | is and is not: the value has that text up to case, and not so |
| LogFilter.IncludesMeans | frontend/src/lib/log-filter.ts:112-125 | contains and does not contain: the value's text has it somewhere, and not so |
| LogFilter.ExistsMeans | frontend/src/lib/log-filter.ts:112-125 | exists and does not exist: there is a value that is not null, and not so |
| LogFilter.CompareMeans | frontend/src/lib/log-filter.ts:112-125 | the four comparisons: the value is a number at least, at most, above or below the one entered |
| LogFilter.DraftsSurviveTheSearch | frontend/src/lib/log-filter.ts:99-126 | a list of accepted drafts survives the trip through the search text |
| LogFilter.LogFiltersSurvive | frontend/src/lib/log-filter.ts:99-126 | so any non-empty list of accepted log filters comes back from its search text, filter by filter |
| LogFilter.RedraftingKeepsMeaning | frontend/src/lib/log-filter.ts:26-48 | opening a term for editing and saving it keeps what it matches on every record |
| LogFilter.RedraftIsAcceptedIff | frontend/src/lib/log-filter.ts:26-77 | an opened term validates unless it is `**` or compares a field that is not numeric |
| CommitDelivery.StepKeepsValid | internal/storage/storage.go:559-670 | every step of writer and delivery goroutine keeps order, batch shape, queue bound and barrier position |
| CommitDelivery.DeliveriesFollowCommits | internal/storage/storage.go:591-670 | in every interleaving the deliveries are a prefix of the accepted events in commit order, each one event or up to 16 metric ones |
| CommitDelivery.BatchesAreGreedy | internal/storage/storage.go:591-647 | a metric batch is handed over only when it holds 16 commits or no further metric commit comes next in the queue |
| CommitDelivery.SyncWaitsForDelivery | internal/storage/storage.go:559-566 | a barrier is released only after everything accepted before it was delivered |
| CommitDelivery.NeverStuck | internal/storage/storage.go:591-647 | the delivery goroutine can always advance while something is undelivered or a barrier waits |
| CommitDelivery.CloseDrains | internal/storage/storage.go:479-501 | after closing, everything accepted is delivered and the goroutine returns |
| CommitDelivery.Deliveries.DispatchCommit | internal/storage/storage.go:573-583 | an event is taken exactly when fewer than 256 jobs are queued, and dropped otherwise |
| CommitDelivery.Deliveries.Step | internal/storage/storage.go:591-647 | the loop body between two channel operations, pending slot included, is the state machine's step |
| CommitDelivery.Deliveries.RunCommits | internal/storage/storage.go:591-647 | run on a closed queue, the loop delivers the rest and ends |
| LiveTraceSearch.RunIsValid | frontend/src/hooks/use-live-trace-search.ts:16-78 | in every run: delay between 500 and 10000, one request at a time, pending work always has a timer or a request, batches of at most 1000 |
| LiveTraceSearch.DelayFollowsFailures | frontend/src/hooks/use-live-trace-search.ts:25-66 | the delay after any run: 500 ms, doubled by each failure in a row up to 10 s, and 500 again after a reply |
| LiveTraceSearch.DisposedIsQuiet | frontend/src/hooks/use-live-trace-search.ts:73-77 | after disposal no request is sent and no verdict written |
| LiveTraceSearch.NoUpdateSinceSending | frontend/src/hooks/use-live-trace-search.ts:34-59 | a verdict is written only from a request sent after the id's latest live update |
| LiveTraceSearch.VerdictIsTheReplys | frontend/src/hooks/use-live-trace-search.ts:48-58 | the verdicts written are the reply's, and no other id's verdict changes |
| LiveTraceSearch.PendingUntilCovered | frontend/src/hooks/use-live-trace-search.ts:35-62 | a pending id is let go only by its verdict or when its trace is no longer buffered |
| LiveTraceSearch.PlaceIsKept | frontend/src/hooks/use-live-trace-search.ts:26-72 | no action moves a pending id back in line |
| LiveTraceSearch.FirstInLineAreSent | frontend/src/hooks/use-live-trace-search.ts:36-44 | a request carries the first thousand pending ids that are still buffered |
| LiveTraceSearch.Effect.OnUpdate | frontend/src/hooks/use-live-trace-search.ts:68-72 | the subscription callback is the update step |
| LiveTraceSearch.Effect.Run | frontend/src/hooks/use-live-trace-search.ts:34-44 | the timer's callback is the request step |
| LiveTraceSearch.Effect.OnReply | frontend/src/hooks/use-live-trace-search.ts:46-66 | the loop over the batch writes exactly the verdicts of entries still pending as sent |
| LiveTraceSearch.Effect.OnFailure | frontend/src/hooks/use-live-trace-search.ts:60-66 | a failure doubles the delay up to the cap and keeps everything pending |
| Paging.PageContinues | internal/storage/query_log.go:66-97 | the limit+1 page after the k-th row holds the following rows and knows whether more remain |
| Paging.WalkShowsAll | internal/storage/query_log.go:66-97 | following end cursors until a page announces no more shows every matching row exactly once in order |
| Paging.WalkEnds | internal/storage/query_log.go:66-97 | such a walk always comes to an end |
| PageQueries.LogKeyset | internal/storage/query_log.go:52-61 | the two-key cursor predicate means "after the cursor" in ORDER BY ts DESC, id DESC |
| PageQueries.LogPagesShowAll | internal/storage/query_log.go:52-97 | walking the log pages lists every matching log once and no other, newest first, equal times by greater id first |
| PageQueries.LogsPage | internal/storage/query_log.go:66-97 | the method returns that page, at most limit rows of it, and says whether more follow |
| PageQueries.TraceKeyset | internal/storage/query_trace.go:116-150 | the three-key cursor predicate means "after the cursor" in its descending order |
| PageQueries.TracePagesShowAll | internal/storage/query_trace.go:116-216 | walking the trace pages lists every matching trace once and no other, latest start first, then latest first seen, then greater id |
| PageQueries.TracesPage | internal/storage/query_trace.go:156-224 | the method returns that page, at most limit rows of it, and says whether more follow |
| PageQueries.LinkKeyset | internal/storage/span_links.go:99-119 | the row comparison starts below every link and means "after the cursor" in the ascending order |
| PageQueries.LinkPagesShowAll | internal/storage/span_links.go:92-133 | walking the link pages lists once each link that leads to the span, or that comes from it, ordered by source trace, source span and position |
| PageQueries.SpanLinks | internal/storage/span_links.go:92-133 | which requests fail, which span contexts have no incoming links, and otherwise the page and its cursor, of links that lead to the span when incoming and come from it when not |
| PageQueries.EndCursorIsAccepted | internal/storage/span_links.go:105-131 | every cursor a page hands out is accepted again |
| PageQueries.ValidSpanContext | internal/storage/span_links.go:48-61 | exactly the non-zero hexadecimal ids of 32 and 16 digits pass |

## Left out

- DuckDB, its driver, appenders, staging tables and JSON columns: each statement is its effect on tables.
- Self-telemetry, contexts, cancellation, HTTP, WebSocket and CLI plumbing, migrations: no properties of their own here.
- Floating-point rounding: counts, sums, quantiles and means are over reals.
- FNV itself: hashes are opaque keys, and the theorems are about the bytes fed to it.
- MetricDerivation.WindowEqualsHistory: assumes distinct timestamps per series, because `lag` orders by time only while the predecessor ranking also uses the id; running totals of delta series are excluded and stated by RunningStartsAtWindow.
- ChartBuckets.SevenSecondGridsDiffer: the anchor is DuckDB's documented default for `time_bucket`; the repository does not name it.
- Distribution.MetricDistributionStats: group identity is a given string, which is also what the result is sorted by.
- Distribution.BucketsTelescope: speaks of edges the run shares; when exponential offsets shift, the code subtracts position by position all the same.
- Distribution.RunDistributionTelescopes: at bounds where UpToAtBound reads the count itself, for every point of the run; explicit layouts only.
- Quantile.QuantileError: the interpolation inside exponential buckets is any monotone share from 0 to 1, so with them the least point is assumed to exist; infinite bucket edges do not occur.
- Storage.Storage.EnforceMaxSize: the file size after each pass is a parameter.
- Storage.Storage.PerformSweep: a COMMIT that reports an error is taken not to have committed.
- Redelivery.DeliveryOrderIsIrrelevant: compares tombstoned ids, not the tombstones' counts and times.
- Convert.ConvertTraces: spans and points carry their remaining columns as one opaque detail.
- AttrEncoding.EntriesAreReadBack: the repository has no decoder; the one here is the reference that shows nothing is lost.
- AttrEncoding.RoundTrip: lengths are those a 64-bit `int` can hold.
- JsonString.QuoteReads: half of a surrogate pair on its own decodes to U+FFFD as on the server, where the browser would keep it; characters are Unicode scalar values.
- LogSearch.SearchesAgree: case folding is character by character, and the two texts of a JSON column are given, not computed from the column.
- LogFilter.RedraftingKeepsMeaning: a finite number is assumed to be written as a numeral that reads as the same number.
- JsonPointer.PointerNamesKey: array elements are not addressed; the pointers built here have one token into an object.
- PageQueries.SpanLinks: a cursor is its decoded fields; base64 and JSON decoding of it are not modelled.
- Broadcast.BroadcastMetricDeliveries: the points of a message are a set, without their order by time, and a failing read-back is not modelled.
- CommitDelivery.Deliveries.Step: a callback that never returns is not modelled, and a delivery is recorded when its callback is made.
- Trace and metric search predicates, filter suggestions, metric list pages, latest values and automatic bucket widths: variations on what is modelled that would add only easy members.
