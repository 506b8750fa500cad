// The single writer: every mutating statement runs here, one message at a time.
module Storage {
  import opened Filters
  import opened Order
  import opened Rows
  import opened TraceSummary
  import opened SummaryState
  import opened Database
  import opened TraceTables
  import opened Dimensions
  import opened LruSet
  import Redelivery

  const RESOURCE_CACHE_CAP: int := 10_000
  const MAX_SIZE_SWEEP_ITERATIONS: nat := 60
  const LOOKUP_BATCH: nat := 32
  const DAY: int := 86_400_000_000_000

  /** What a trace write announces after it commits. */
  datatype TraceEvent = TraceEvent(spans: seq<SpanRow>, summaries: map<string, Summary>, droppedTraceIds: set<string>)

  /** Where a trace message fails, if it does: an upsert, the tombstone query, or inside the transaction. */
  datatype TraceFault = NoFault | ResourceFault(failAt: nat) | FilterFault | TransactionFault

  /** How far a metric transaction gets before it is rolled back; `Commits` when it is not. */
  datatype MetricFault = Commits | ResourcesFail(failAt: nat) | SeriesFail | LayoutsFail | AppendFails | CommitFails

  /** Where a pass of a sweep fails, if it does; `done` of the three deletes of the prune succeed. */
  datatype PassFault = Passes | SizeFails | OldestFails | DeleteFails | PruneFails(done: nat) | CheckpointFails

  class Storage {
    var spans: seq<Span>
    var spanLinks: seq<SpanLink>
    var summaries: map<string, Summary>
    var dropped: map<string, Tombstone>
    var resources: map<Hash, Resource>
    var series: map<Hash, Series>
    var layouts: map<Hash, string>
    var points: seq<Point>
    var exemplars: seq<Exemplar>
    var logs: seq<Log>
    var resourceCache: LruSet<Hash>

    ghost function Db(): Tables reads this {
      Tables(spans, spanLinks, summaries, dropped, resources, series, layouts, points, exemplars, logs)
    }

    /** Every hash in the cache has a stored row: only then may an upsert be skipped. */
    ghost predicate CacheSound() reads this, resourceCache {
      resourceCache.Valid() && resourceCache.items <= resources.Keys
    }

    ghost predicate Valid() reads this, resourceCache {
      Consistent(Db()) && CacheSound()
    }

    constructor ()
      ensures Valid() && fresh(resourceCache) && resourceCache.cap == 10_000
      ensures Db() == EMPTY_TABLES
      ensures spans == [] && spanLinks == [] && summaries == map[] && dropped == map[]
      ensures points == [] && exemplars == [] && logs == []
      ensures resources == map[] && series == map[] && layouts == map[]
    {
      hide Consistent;
      spans, spanLinks, summaries, dropped := [], [], map[], map[];
      resources, series, layouts := map[], map[], map[];
      points, exemplars, logs := [], [], [];
      resourceCache := new LruSet<Hash>(RESOURCE_CACHE_CAP);
      new;
      EmptyIsConsistent();
    }

    /** Inserts unseen resources; the cache only decides which statements are sent. `failAt` rows succeed. */
    method UpsertResources(rows: seq<ResourceRow>, failAt: nat) returns (ok: bool)
      requires CacheSound()
      modifies this`resources, resourceCache
      ensures CacheSound()
      ensures ok <==> |rows| <= failAt
      ensures resources == ResourcesUpserted(old(resources), rows[..if ok then |rows| else failAt])
      ensures AddsResources(old(resources), rows[..if ok then |rows| else failAt], resources)
    {
      hide Bounded, Recent, Remove, NoRepeats, AddsResources;
      for i := 0 to |rows|
        invariant i <= failAt
        invariant CacheSound()
        invariant resources == ResourcesUpserted(old(resources), rows[..i])
      {
        if i == failAt {
          UpsertAddsResources(old(resources), rows[..failAt]);
          return false;
        }
        assert rows[..i + 1][..i] == rows[..i];
        var hit := resourceCache.Contains(rows[i].hash);
        if hit { continue; }
        if rows[i].hash !in resources {
          resources := resources[rows[i].hash := rows[i].resource];
        }
        resourceCache.Add(rows[i].hash);
      }
      assert rows[..|rows|] == rows;
      UpsertAddsResources(old(resources), rows);
      ok := true;
    }

    /** Drops the rows of tombstoned traces and refreshes those tombstones. */
    method FilterDroppedTraceRows(rows: seq<SpanRow>, now: Time) returns (result: seq<SpanRow>)
      modifies this`dropped
      ensures result == Filter(rows, Redelivery.NotDropped(old(dropped)))
      ensures dropped == Refreshed(old(dropped), rows, now)
      ensures HoldsLive(rows, old(dropped), result)
      ensures dropped.Keys == old(dropped.Keys) && RefreshesTombstones(old(dropped), rows, now, dropped)
    {
      hide RefreshesTombstones, HoldsLive, RowsOf, Refreshed;
      ghost var before := dropped;
      RefreshedTombstones(before, rows, now);
      LiveRowsPass(before, rows);
      var tombstoned := set t | t in dropped && RowsOf(rows, t) != [];
      MetTombstones(before, rows, now, tombstoned);
      if tombstoned == {} {
        FilterAll(rows, Redelivery.NotDropped(dropped));
        return rows;
      }
      dropped := map t | t in dropped :: if t in tombstoned then dropped[t].(lastSeen := now) else dropped[t];
      result := [];
      for i := 0 to |rows|
        invariant result == Filter(rows[..i], Redelivery.NotDropped(before))
      {
        assert rows[..i + 1][..i] == rows[..i];
        if rows[i].traceId !in tombstoned { result := result + [rows[i]]; }
      }
      assert rows[..|rows|] == rows;
    }

    /** Loads the stored summary state of every trace in the batch that has one. */
    method LoadStates(rows: seq<SpanRow>) returns (states: map<string, TraceSummaryState>)
      requires forall t :: SummaryExact(spans, summaries, t)
      ensures Separate(states) && fresh(states.Values)
      ensures forall t :: t in states <==> t in summaries && RowsOf(rows, t) != []
      ensures Snapshot(states) == map t | t in summaries && RowsOf(rows, t) != [] :: Some(summaries[t])
    {
      forall t | t in summaries ensures summaries[t].spanCount > 0 {
        assert SummaryExact(spans, summaries, t);
      }
      hide SummaryExact, Snapshot, Separate;
      states := map[];
      NoStates(states);
      var wanted := set t | t in summaries && RowsOf(rows, t) != [];
      var todo := wanted;
      while todo != {}
        invariant todo <= wanted && states.Keys == wanted - todo
        invariant Separate(states) && forall t :: t in states ==> fresh(states[t])
        invariant Snapshot(states) == map t | t in wanted - todo :: Some(summaries[t])
      {
        var t :| t in todo;
        states := AddState(states, t, Some(summaries[t]));
        todo := todo - {t};
      }
    }

    /** The span ids to look up, per trace; a trace without a summary needs no lookup. */
    method LookupCandidates(rows: seq<SpanRow>, existing: set<string>)
      returns (lookup: seq<string>, candidates: map<string, set<string>>)
      ensures forall t :: t in lookup <==> t in candidates
      ensures forall t :: t in candidates ==> t in existing
      ensures forall i :: 0 <= i < |rows| && rows[i].traceId in existing ==>
        rows[i].traceId in candidates && rows[i].spanId in candidates[rows[i].traceId]
    {
      lookup, candidates := [], map[];
      for i := 0 to |rows|
        invariant forall t :: t in lookup <==> t in candidates
        invariant forall t :: t in candidates ==> t in existing
        invariant forall j :: 0 <= j < i && rows[j].traceId in existing ==>
          rows[j].traceId in candidates && rows[j].spanId in candidates[rows[j].traceId]
      {
        var row := rows[i];
        if row.traceId !in existing { continue; }
        if row.traceId !in candidates {
          lookup := lookup + [row.traceId];
          candidates := candidates[row.traceId := {}];
        }
        candidates := candidates[row.traceId := candidates[row.traceId] + {row.spanId}];
      }
    }

    /** Looks the candidates up in the spans table, a bounded number of traces per query. */
    method ExistingKeys(lookup: seq<string>, candidates: map<string, set<string>>) returns (keys: set<(string, string)>)
      requires forall t :: t in lookup <==> t in candidates
      ensures keys == set s | s in spans && s.traceId in candidates && s.spanId in candidates[s.traceId] :: s.Key()
    {
      keys := {};
      var start := 0;
      while start < |lookup|
        invariant start <= |lookup|
        invariant keys == set s |
          s in spans && s.traceId in lookup[..start] && s.spanId in candidates[s.traceId] :: s.Key()
      {
        var end := if start + LOOKUP_BATCH < |lookup| then start + LOOKUP_BATCH else |lookup|;
        assert lookup[..end] == lookup[..start] + lookup[start..end];
        keys := keys + set s |
          s in spans && s.traceId in lookup[start..end] && s.spanId in candidates[s.traceId] :: s.Key();
        start := end;
      }
      assert lookup[..|lookup|] == lookup;
    }

    /** Skipping the lookup for traces without a summary never admits a stored span again. */
    method FilterNewSpans(rows: seq<SpanRow>, existing: set<string>) returns (inserted: seq<SpanRow>)
      requires forall t :: SummaryExact(spans, summaries, t)
      requires forall t :: t in existing <==> t in summaries && RowsOf(rows, t) != []
      ensures inserted == NewRows(KeysOf(spans), rows)
    {
      var lookup, candidates := LookupCandidates(rows, existing);
      var existingKeys := ExistingKeys(lookup, candidates);
      forall i | 0 <= i < |rows| ensures RowKey(rows[i]) in existingKeys <==> RowKey(rows[i]) in KeysOf(spans) {
        HasRowsOf(rows, i);
        LookupIsExact(spans, summaries, existing, candidates, rows[i]);
      }
      var seen: set<(string, string)> := {};
      inserted := [];
      for i := 0 to |rows|
        invariant inserted == NewRows(KeysOf(spans), rows[..i])
        invariant seen == RowKeys(inserted)
      {
        NewRowsStep(KeysOf(spans), rows, i);
        var key := RowKey(rows[i]);
        if key in existingKeys || key in seen { continue; }
        seen := seen + {key};
        inserted := inserted + [rows[i]];
      }
      assert rows[..|rows|] == rows;
    }

    /** Deletes one trace everywhere and leaves a tombstone. */
    method DropTrace(t: string, spanCount: nat, at: Time)
      modifies this`spans, this`spanLinks, this`summaries, this`dropped
      ensures spans == Filter(old(spans), NotInTraces({t}))
      ensures spanLinks == Filter(old(spanLinks), NotFromTraces({t}))
      ensures summaries == old(summaries) - {t}
      ensures dropped == old(dropped)[t := Tombstone(at, spanCount)]
    {
      spanLinks := Filter(spanLinks, NotFromTraces({t}));
      spans := Filter(spans, NotInTraces({t}));
      summaries := summaries - {t};
      dropped := dropped[t := Tombstone(at, spanCount)];
    }

    /** Drops every touched trace whose running span count is over the limit. */
    method DropOversized(states: map<string, Summary>, at: Time) returns (over: set<string>)
      modifies this`spans, this`spanLinks, this`summaries, this`dropped
      ensures over == Oversized(states, states.Keys)
      ensures spans == Filter(old(spans), NotInTraces(over))
      ensures spanLinks == Filter(old(spanLinks), NotFromTraces(over))
      ensures summaries == old(summaries) - over
      ensures dropped == old(dropped) + Tombstones(states, over, at)
    {
      over := {};
      var todo := states.Keys;
      DropNothing(spans, spanLinks);
      while todo != {}
        invariant todo <= states.Keys
        invariant over == Oversized(states, states.Keys - todo)
        invariant spans == Filter(old(spans), NotInTraces(over))
        invariant spanLinks == Filter(old(spanLinks), NotFromTraces(over))
        invariant summaries == old(summaries) - over
        invariant dropped == old(dropped) + Tombstones(states, over, at)
      {
        var t :| t in todo;
        todo := todo - {t};
        if states[t].spanCount > MAX_SPANS_PER_TRACE {
          DropOneMore(old(spans), old(spanLinks), over, t);
          DropTrace(t, states[t].spanCount, at);
          over := over + {t};
        }
      }
    }

    /** Appends the links of the inserted spans, numbered from zero per span. */
    method AppendSpanLinks(rows: seq<SpanRow>)
      modifies this`spanLinks
      ensures spanLinks == old(spanLinks) + AllLinks(rows)
    {
      for i := 0 to |rows|
        invariant spanLinks == old(spanLinks) + AllLinks(rows[..i])
      {
        for ordinal := 0 to |rows[i].links|
          invariant spanLinks == old(spanLinks) + AllLinks(rows[..i]) + LinksFor(rows[i])[..ordinal]
        {
          spanLinks := spanLinks + [SpanLink(rows[i].traceId, rows[i].spanId, ordinal, rows[i].links[ordinal])];
        }
        assert LinksFor(rows[i])[..|rows[i].links|] == LinksFor(rows[i]);
        assert rows[..i + 1][..i] == rows[..i];
      }
      assert rows[..|rows|] == rows;
    }

    /** Merges the inserted spans into the summaries of their traces, starting from the stored ones. */
    method MergedStates(inserted: seq<SpanRow>, existing: map<string, TraceSummaryState>, at: Time)
      returns (merged: map<string, Summary>)
      requires Separate(existing) && Snapshot(existing) == TouchedViews(summaries, inserted)
      modifies existing.Values
      ensures merged == Merges(summaries, inserted, at)
    {
      hide Filter, Folded, FoldedAll, AllLinks, NewRows;
      var states := MergeTraceSummaryStates(existing, inserted, at);
      merged := map t | t in states && states[t].View().Some? :: states[t].View().value;
      assert forall t :: t in states ==> Snapshot(states)[t] == states[t].View();
    }

    /** Appends the inserted spans and brings links, summaries and tombstones up to date with them. */
    method WriteInserted(inserted: seq<SpanRow>, existing: map<string, TraceSummaryState>, at: Time)
      returns (over: set<string>)
      requires Separate(existing) && Snapshot(existing) == TouchedViews(summaries, inserted)
      modifies this`spans, this`spanLinks, this`summaries, this`dropped, existing.Values
      ensures over == Oversized(Merges(old(summaries), inserted, at), Merges(old(summaries), inserted, at).Keys)
      ensures Db() == WrittenTables(old(Db()), inserted, at, over)
    {
      hide Filter, Folded, FoldedAll, AllLinks, NewRows, Merges, Oversized, Tombstones, TouchedViews, Snapshot,
        Separate;
      spans := spans + StoredAll(inserted, at);
      AppendSpanLinks(inserted);
      var merged := MergedStates(inserted, existing, at);
      over := DropOversized(merged, at);
      summaries := summaries + (merged - over);
    }

    /** Everything one batch does to the trace tables. */
    method WriteTraceRows(rows: seq<SpanRow>, at: Time) returns (event: TraceEvent)
      requires TracesConsistent(Db())
      requires forall i :: 0 <= i < |rows| ==> rows[i].traceId !in dropped
      modifies this`spans, this`spanLinks, this`summaries, this`dropped
      ensures TraceWritten(old(Db()), NewRows(KeysOf(old(spans)), rows), at, event.droppedTraceIds, Db())
      ensures IsAnnounced(event, NewRows(KeysOf(old(spans)), rows), summaries)
    {
      hide Filter, Folded, FoldedAll, AllLinks, NewRows, TraceWritten, Writable, WrittenTables, Merges, Oversized;
      ghost var before := Db();
      var existing := LoadStates(rows);
      var inserted := FilterNewSpans(rows, existing.Keys);
      if inserted == [] {
        EmptyWrite(before, at);
        return EmptyEvent(summaries);
      }
      NewRowsAreWritable(before, rows);
      StatesTouched(before, rows, inserted);
      var touched := map t | t in existing && RowsOf(inserted, t) != [] :: existing[t];
      TouchedSnapshot(existing, touched, summaries, rows, inserted);
      var over := WriteInserted(inserted, touched, at);
      WrittenAsSpecified(before, inserted, at, over);
      var retained := Filter(inserted, KeptRow(over));
      event := TraceEvent(retained, map t | t in summaries && RowsOf(retained, t) != [] :: summaries[t], over);
    }

    /** One batch in one transaction; a failed one leaves no trace. */
    method WriteTraceRowsTransaction(rows: seq<SpanRow>, at: Time, commits: bool) returns (event: Option<TraceEvent>)
      requires TracesConsistent(Db())
      requires forall i :: 0 <= i < |rows| ==> rows[i].traceId !in dropped
      modifies this`spans, this`spanLinks, this`summaries, this`dropped
      ensures event.Some? <==> commits
      ensures !commits ==> Db() == old(Db())
      ensures commits ==>
        (TraceWritten(old(Db()), NewRows(KeysOf(old(spans)), rows), at, event.value.droppedTraceIds, Db()) &&
         IsAnnounced(event.value, NewRows(KeysOf(old(spans)), rows), summaries))
      ensures commits ==> StoresBatch(old(Db()), rows, at, event.value.droppedTraceIds, Db())
      ensures commits ==> AnnouncesBatch(old(Db()), rows, event.value, summaries)
    {
      hide Filter, Folded, FoldedAll, AllLinks, NewRows, TraceWritten, Writable, IsAnnounced, StoresBatch,
        AnnouncesBatch;
      var savedSpans, savedLinks, savedSummaries, savedDropped := spans, spanLinks, summaries, dropped;
      var announced := WriteTraceRows(rows, at);
      if commits {
        BatchIsStored(old(Db()), rows, at, announced.droppedTraceIds, Db());
        BatchIsAnnounced(old(Db()), rows, announced, summaries);
        event := Some(announced);
      } else {
        spans, spanLinks, summaries, dropped := savedSpans, savedLinks, savedSummaries, savedDropped;
        event := None;
      }
    }

    /** A trace message: resources outside the transaction, then tombstones, then the batch. */
    method WriteTraces(batch: TraceBatch, now: Time, at: Time, fault: TraceFault) returns (event: Option<TraceEvent>)
      requires Valid() && TraceBatchOk(batch)
      requires fault.ResourceFault? ==> fault.failAt < |batch.resources|
      modifies this`spans, this`spanLinks, this`summaries, this`dropped, this`resources, resourceCache
      ensures Valid()
      ensures fault == NoFault ==> Redelivery.DeliveryStep(old(Db()), batch.spans, Db())
      ensures fault == NoFault ==> resources == ResourcesUpserted(old(resources), batch.resources)
      ensures fault == NoFault ==> AddsResources(old(resources), batch.resources, resources)
      ensures fault != NoFault ==> spans == old(spans) && spanLinks == old(spanLinks) && summaries == old(summaries)
      ensures fault != NoFault ==> dropped.Keys == old(dropped.Keys)
      ensures fault.ResourceFault? || fault.FilterFault? ==> dropped == old(dropped)
      ensures fault.NoFault? || fault.TransactionFault? ==>
        RefreshesTombstones(old(dropped), batch.spans, now, dropped)
      ensures event.Some? ==> IsAnnounced(event.value, Redelivery.Inserted(old(Db()), batch.spans), summaries)
      ensures event.Some? ==>
        AnnouncesBatch(old(Db()), Redelivery.Surviving(old(Db()), batch.spans), event.value, summaries)
      ensures event.Some? <==> fault == NoFault && Redelivery.Surviving(old(Db()), batch.spans) != []
    {
      hide Filter, NewRows, TraceWritten, Writable, IsAnnounced, TracesConsistent, Referenced, FoldedAll, Folded,
           Redelivery.DeliveryStep, NoRepeats, Bounded, Recent, TraceBatchOk, ResourcesUpserted,
           AddsResources, StoresBatch, RefreshesTombstones, AnnouncesBatch;
      ghost var start := Db();
      var ok := UpsertResources(batch.resources, if fault.ResourceFault? then fault.failAt else |batch.resources|);
      UpsertKeepsConsistent(start, batch.resources, if ok then |batch.resources| else fault.failAt);
      if !ok || fault == FilterFault { return None; }
      assert batch.resources[..|batch.resources|] == batch.resources;
      var rows := FilterDroppedTraceRows(batch.spans, now);
      RefreshKeepsConsistent(start.(resources := resources), batch.spans, now);
      ghost var d := Db();
      SurvivorsAreLive(start, batch.spans);
      if rows == [] {
        NothingSurvives(start, batch.spans, d, at);
        return None;
      }
      assert rows == Redelivery.Surviving(start, batch.spans) && dropped.Keys == start.dropped.Keys;
      assert forall i :: 0 <= i < |rows| ==> rows[i].traceId !in start.dropped;
      event := WriteTraceRowsTransaction(rows, at, fault == NoFault);
      if fault == NoFault {
        TraceBatchDelivered(start, batch, d, at, event.value.droppedTraceIds, Db());
        WriteKeepsTombstones(d, rows, at, event.value.droppedTraceIds, Db());
        SameTombstones(start.dropped, batch.spans, now, d.dropped, dropped);
        SameAnnounced(d, start, rows, event.value, summaries);
      }
    }

    /** Merges the staged series rows: known series are refreshed, new ones inserted. */
    method UpsertSeries(rows: seq<SeriesRow>, now: Time)
      modifies this`series
      ensures series == SeriesMerged(old(series), rows, now) && MergesSeries(old(series), rows, now, series)
    {
      hide MergesSeries;
      for i := 0 to |rows|
        invariant series == SeriesMerged(old(series), rows[..i], now)
      {
        assert rows[..i + 1][..i] == rows[..i];
        var row := rows[i];
        series := series[row.key :=
          if row.key in series then series[row.key].(description := row.series.description, lastSeen := now)
          else row.series.(firstSeen := now, lastSeen := now)];
      }
      assert rows[..|rows|] == rows;
      MergeMergesSeries(old(series), rows, now);
    }

    method UpsertHistogramLayouts(rows: seq<LayoutRow>)
      modifies this`layouts
      ensures layouts == LayoutsMerged(old(layouts), rows) && AddsLayouts(old(layouts), rows, layouts)
    {
      hide AddsLayouts;
      for i := 0 to |rows|
        invariant layouts == LayoutsMerged(old(layouts), rows[..i])
      {
        assert rows[..i + 1][..i] == rows[..i];
        if rows[i].hash !in layouts { layouts := layouts[rows[i].hash := rows[i].layout]; }
      }
      assert rows[..|rows|] == rows;
      MergeAddsLayouts(old(layouts), rows);
    }

    /** The statements of a metric transaction, up to the first that fails. */
    method MetricStatements(batch: MetricBatch, now: Time, fault: MetricFault) returns (ok: bool)
      requires CacheSound()
      requires fault.ResourcesFail? ==> fault.failAt < |batch.resources|
      modifies this`resources, this`series, this`layouts, this`points, this`exemplars, resourceCache
      ensures ok <==> fault == Commits
      ensures ok ==> CacheSound() && Db() == MetricsWritten(old(Db()), batch, now)
    {
      hide NoRepeats, ResourcesUpserted, SeriesMerged, LayoutsMerged, AddsResources, MergesSeries, AddsLayouts;
      ok := UpsertResources(batch.resources, if fault.ResourcesFail? then fault.failAt else |batch.resources|);
      if !ok || fault == SeriesFail { return false; }
      assert batch.resources[..|batch.resources|] == batch.resources;
      UpsertSeries(batch.series, now);
      if fault == LayoutsFail { return false; }
      UpsertHistogramLayouts(batch.layouts);
      if batch.points == [] { return fault == Commits; }
      if fault == AppendFails { return false; }
      points := points + batch.points;
      exemplars := exemplars + batch.exemplars;
      ok := fault == Commits;
    }

    /** A metric message is one transaction. A rollback also forgets the cache, which may name rolled-back rows. */
    method WriteMetrics(batch: MetricBatch, now: Time, fault: MetricFault) returns (announced: bool)
      requires Valid() && MetricBatchOk(batch)
      requires fault.ResourcesFail? ==> fault.failAt < |batch.resources|
      modifies this`resources, this`series, this`layouts, this`points, this`exemplars, this`resourceCache, resourceCache
      ensures Valid() && (resourceCache == old(resourceCache) || fresh(resourceCache))
      ensures Db() == if fault == Commits then MetricsWritten(old(Db()), batch, now) else old(Db())
      ensures fault == Commits ==> StoresMetrics(old(Db()), batch, now, Db())
      ensures announced <==> fault == Commits && batch.points != []
    {
      hide Consistent, NoRepeats, Bounded, Recent, MetricBatchOk, MetricsWritten, StoresMetrics;
      ghost var start := Db();
      MetricsAreStored(start, batch, now);
      MetricsKeepConsistent(start, batch, now);
      var savedResources, savedSeries, savedLayouts := resources, series, layouts;
      var savedPoints, savedExemplars := points, exemplars;
      var ok := MetricStatements(batch, now, fault);
      if ok { return batch.points != []; }
      resources, series, layouts := savedResources, savedSeries, savedLayouts;
      points, exemplars := savedPoints, savedExemplars;
      resourceCache := new LruSet<Hash>(RESOURCE_CACHE_CAP);
      announced := false;
    }

    /** A log message: resources first, then one append. */
    method WriteLogs(batch: LogBatch, failAt: nat, appends: bool) returns (announced: bool)
      requires Valid() && LogBatchOk(batch)
      modifies this`resources, this`logs, resourceCache
      ensures Valid()
      ensures resources == ResourcesUpserted(old(resources),
                batch.resources[..if failAt < |batch.resources| then failAt else |batch.resources|])
      ensures AddsResources(old(resources),
                batch.resources[..if failAt < |batch.resources| then failAt else |batch.resources|], resources)
      ensures logs == old(logs) + if failAt >= |batch.resources| && appends then batch.logs else []
      ensures announced <==> failAt >= |batch.resources| && appends && batch.logs != []
    {
      hide Consistent, NoRepeats, Bounded, Recent, AddsResources, ResourcesUpserted;
      ghost var start := Db();
      var ok := UpsertResources(batch.resources, failAt);
      UpsertKeepsConsistent(start, batch.resources, if ok then |batch.resources| else failAt);
      if !ok || !appends || batch.logs == [] { return false; }
      assert batch.resources[..|batch.resources|] == batch.resources;
      LogsKeepConsistent(start, batch);
      logs := logs + batch.logs;
      announced := true;
    }

    /** Rebuilds the summaries of the affected traces from the spans that remain. */
    method RebuildAffectedTraceSummaries(affected: set<string>)
      modifies this`summaries
      ensures forall t :: FindSummary(summaries, t) == RebuiltOr(affected, spans, old(summaries), t)
    {
      summaries := summaries - affected;
      summaries := summaries + map t | t in affected && RebuiltRow(spans, t).Some? :: RebuiltRow(spans, t).value;
    }

    /** Deletes old spans and their links, and rebuilds what they were summarized in. */
    method DeleteSpansBefore(cutoff: Time) returns (deleted: nat)
      modifies this`spans, this`spanLinks, this`summaries, this`dropped
      ensures Swept(old(Db()), cutoff, Db()) && deleted == |old(spans)| - |spans|
      ensures dropped == map t | t in old(dropped) && old(dropped)[t].lastSeen >= cutoff :: old(dropped)[t]
    {
      hide Filter, RebuiltRow;
      var affected := AffectedTraces(spans, cutoff);
      spanLinks := Filter(spanLinks, NotFromSpans(SweptKeys(spans, cutoff)));
      var before := |spans|;
      spans := Filter(spans, NotBefore(cutoff));
      deleted := before - |spans|;
      RebuildAffectedTraceSummaries(affected);
      dropped := map t | t in dropped && dropped[t].lastSeen >= cutoff :: dropped[t];
    }

    /** One transaction: every fact older than the cutoff goes, and affected summaries are rebuilt. */
    method DeleteFactsBefore(cutoff: Time) returns (deleted: nat)
      requires Valid()
      modifies this`spans, this`spanLinks, this`summaries, this`dropped, this`points, this`exemplars, this`logs
      ensures Valid() && FactsDeleted(old(Db()), cutoff, Db())
      ensures KeepsSince(old(Db()), cutoff, Db())
      ensures deleted == FactCount(old(Db())) - FactCount(Db())
    {
      hide Filter, TracesConsistent, Referenced, Swept, KeepsSince;
      ghost var start := Db();
      deleted := DeleteSpansBefore(cutoff);
      ghost var d := Db();
      exemplars := Filter(exemplars, NotOfPoints(SweptPointIds(points, cutoff)));
      var before := |points|;
      points := Filter(points, PointNotBefore(cutoff));
      deleted := deleted + (before - |points|);
      before := |logs|;
      logs := Filter(logs, LogNotBefore(cutoff));
      deleted := deleted + (before - |logs|);
      SweptIsTraceTablesOnly(start, cutoff, d, Db());
      SweepKeepsTraces(start, cutoff, Db());
      DeleteKeepsReferences(start, cutoff, Db());
      DeleteKeepsSince(start, cutoff, Db());
    }

    /** Deletes unreferenced dimension rows, then forgets the cache; `steps` of the three deletes succeed. */
    method PruneDimensions(steps: nat) returns (ok: bool)
      requires Valid()
      modifies this`series, this`layouts, this`resources, this`resourceCache
      ensures Valid() && (resourceCache == old(resourceCache) || fresh(resourceCache))
      ensures ok <==> steps >= 3
      ensures Db() == Pruned(old(Db()), steps) && Prunes(old(Db()), steps, Db())
    {
      hide Consistent, NoRepeats, Bounded, Recent, Restricted, UsedSeries, UsedLayouts, UsedResources, Prunes;
      PrunedAsUsed(Db(), steps);
      PruneKeepsConsistent(Db(), steps);
      if steps == 0 { return false; }
      series := Restricted(series, UsedSeries(points));
      if steps == 1 { return false; }
      layouts := Restricted(layouts, UsedLayouts(points));
      if steps == 2 { return false; }
      resources := Restricted(resources, UsedResources(spans, logs, series));
      resourceCache := new LruSet<Hash>(RESOURCE_CACHE_CAP);
      ok := true;
    }

    /** The oldest timestamp over all fact tables. */
    method OldestFactTimestamp() returns (oldest: Option<Time>)
      ensures oldest.None? <==> FactCount(Db()) == 0
      ensures oldest.Some? ==> oldest.value in FactTimes(Db())
      ensures oldest.Some? ==> forall t :: t in FactTimes(Db()) ==> oldest.value <= t
    {
      oldest := None;
      for i := 0 to |spans|
        invariant oldest.None? <==> i == 0
        invariant oldest.Some? ==> oldest.value in FactTimes(Db())
        invariant oldest.Some? ==> forall j :: 0 <= j < i ==> oldest.value <= spans[j].startTs
      {
        if oldest.None? || spans[i].startTs < oldest.value { oldest := Some(spans[i].startTs); }
      }
      for i := 0 to |points|
        invariant oldest.None? <==> |spans| + i == 0
        invariant oldest.Some? ==> oldest.value in FactTimes(Db())
        invariant oldest.Some? ==> forall j :: 0 <= j < |spans| ==> oldest.value <= spans[j].startTs
        invariant oldest.Some? ==> forall j :: 0 <= j < i ==> oldest.value <= points[j].ts
      {
        if oldest.None? || points[i].ts < oldest.value { oldest := Some(points[i].ts); }
      }
      for i := 0 to |logs|
        invariant oldest.None? <==> |spans| + |points| + i == 0
        invariant oldest.Some? ==> oldest.value in FactTimes(Db())
        invariant oldest.Some? ==> forall j :: 0 <= j < |spans| ==> oldest.value <= spans[j].startTs
        invariant oldest.Some? ==> forall j :: 0 <= j < |points| ==> oldest.value <= points[j].ts
        invariant oldest.Some? ==> forall j :: 0 <= j < i ==> oldest.value <= logs[j].ts
      {
        if oldest.None? || logs[i].ts < oldest.value { oldest := Some(logs[i].ts); }
      }
    }

    /** Deletes facts, prunes and checkpoints. A failed delete is rolled back, a failed prune leaves part of itself. */
    method DeleteAndPrune(cutoff: Time, fault: PassFault) returns (deleted: nat, ok: bool)
      requires Valid()
      modifies this, resourceCache
      ensures Valid() && (resourceCache == old(resourceCache) || fresh(resourceCache))
      ensures deleted == FactCount(old(Db())) - FactCount(Db())
      ensures if fault.DeleteFails? then Db() == old(Db()) else IsTrimmed(old(Db()), cutoff, Db())
      ensures ok <==> !fault.DeleteFails? && !fault.CheckpointFails? && (fault.PruneFails? ==> fault.done >= 3)
    {
      hide TracesConsistent, Referenced, Filter, Pruned, FactTimes, IsTrimmed;
      if fault.DeleteFails? { return 0, false; }
      ghost var before := Db();
      deleted := DeleteFactsBefore(cutoff);
      DeleteTrims(before, cutoff, Db());
      ghost var after := Db();
      var steps := if fault.PruneFails? then fault.done else 3;
      ok := PruneDimensions(steps);
      PruneTrims(before, cutoff, after, steps);
      ok := ok && !fault.CheckpointFails?;
    }

    /** Deletes the oldest day: at least one row unless the delete fails, and none a full day newer than the oldest. */
    method TrimOldestDay(oldest: Time, fault: PassFault) returns (deleted: nat, ok: bool)
      requires Valid() && oldest in FactTimes(Db())
      modifies this, resourceCache
      ensures Valid() && (resourceCache == old(resourceCache) || fresh(resourceCache))
      ensures deleted == FactCount(old(Db())) - FactCount(Db()) && (deleted > 0 <==> !fault.DeleteFails?)
      ensures KeepsFrom(old(Db()), oldest + 86_400_000_000_000, Db()) && FactTimes(Db()) <= FactTimes(old(Db()))
      ensures ok <==> !fault.DeleteFails? && !fault.CheckpointFails? && (fault.PruneFails? ==> fault.done >= 3)
    {
      hide Consistent, FactTimes, KeepsFrom;
      ghost var before := Db();
      deleted, ok := DeleteAndPrune(oldest + DAY, fault);
      if fault.DeleteFails? {
        KeepsItself(before, oldest + DAY);
      } else {
        TrimRemoves(before, oldest + DAY, Db(), oldest);
      }
    }

    /** Trims the oldest day of facts at a time until the file is small enough; `size` is what each check reads. */
    method EnforceMaxSize(maxSize: int, size: nat -> int, faults: nat -> PassFault)
      returns (deletedRows: nat, iterations: nat, ok: bool)
      requires Valid()
      modifies this, resourceCache
      ensures Valid() && (resourceCache == old(resourceCache) || fresh(resourceCache))
      ensures deletedRows == FactCount(old(Db())) - FactCount(Db()) && FactTimes(Db()) <= FactTimes(old(Db()))
      ensures iterations <= deletedRows && iterations <= 60
      ensures ok ==> iterations == 60 || size(iterations) <= maxSize || FactCount(Db()) == 0
      ensures !ok ==> !faults(iterations).Passes? || (iterations > 0 && !faults(iterations - 1).Passes?)
    {
      hide Consistent, FactTimes;
      deletedRows, iterations, ok := 0, 0, true;
      while iterations < MAX_SIZE_SWEEP_ITERATIONS
        invariant Valid() && (resourceCache == old(resourceCache) || fresh(resourceCache))
        invariant deletedRows == FactCount(old(Db())) - FactCount(Db()) && FactTimes(Db()) <= FactTimes(old(Db()))
        invariant ok && iterations <= deletedRows && iterations <= MAX_SIZE_SWEEP_ITERATIONS
      {
        var fault := faults(iterations);
        if fault.SizeFails? { return deletedRows, iterations, false; }
        if size(iterations) <= maxSize { return; }
        if fault.OldestFails? { return deletedRows, iterations, false; }
        var oldest := OldestFactTimestamp();
        if oldest.None? { return; }
        var deleted, passed := TrimOldestDay(oldest.value, fault);
        if fault.DeleteFails? { return deletedRows, iterations, false; }
        deletedRows, iterations := deletedRows + deleted, iterations + 1;
        if !passed { return deletedRows, iterations, false; }
      }
    }

    /** Retention, pruning and, for a database file, the size limit; the published count is exact however it ends. */
    method PerformSweep(cutoff: Time, fileBacked: bool, maxSize: int, size: nat -> int, first: PassFault,
                        faults: nat -> PassFault)
      returns (deletedRows: nat, ok: bool)
      requires Valid()
      modifies this, resourceCache
      ensures Valid() && (resourceCache == old(resourceCache) || fresh(resourceCache))
      ensures deletedRows == FactCount(old(Db())) - FactCount(Db())
      ensures first.DeleteFails? ==> !ok && Db() == old(Db())
      ensures !first.DeleteFails? ==> forall t :: t in FactTimes(Db()) ==> t >= cutoff && t in FactTimes(old(Db()))
      ensures ok && !fileBacked ==> KeepsFrom(old(Db()), cutoff, Db())
    {
      hide Consistent, FactTimes, KeepsFrom, IsTrimmed;
      ghost var before := Db();
      deletedRows, ok := DeleteAndPrune(cutoff, first);
      if first.DeleteFails? { return; }
      TrimKeeps(before, cutoff, Db());
      if ok && fileBacked {
        var trimmed, _, enforced := EnforceMaxSize(maxSize, size, faults);
        deletedRows, ok := deletedRows + trimmed, enforced;
      }
    }

    /** The deletes of a clear, table by table, up to the first that fails. */
    method DeleteTables(steps: nat)
      modifies this`spans, this`spanLinks, this`summaries, this`dropped, this`resources, this`series, this`layouts,
               this`points, this`exemplars, this`logs
      ensures Db() == Cleared(old(Db()), steps)
    {
      if steps >= 1 { spanLinks := []; }
      if steps >= 2 { spans := []; }
      if steps >= 3 { summaries := map[]; }
      if steps >= 4 { exemplars := []; }
      if steps >= 5 { points := []; }
      if steps >= 6 { logs := []; }
      if steps >= 7 { series := map[]; }
      if steps >= 8 { layouts := map[]; }
      if steps >= 9 { resources := map[]; }
      if steps >= 10 { dropped := map[]; }
    }

    /** Deletes table by table, checkpoints and forgets the cache; the first `steps` of eleven statements succeed. */
    method PerformClear(steps: nat) returns (ok: bool)
      requires Valid()
      modifies this
      ensures Db() == Cleared(old(Db()), steps) && (ok <==> steps >= 11)
      ensures if ok then fresh(resourceCache) else resourceCache == old(resourceCache)
      ensures ok ==> spans == [] && spanLinks == [] && summaries == map[] && dropped == map[]
      ensures ok ==> points == [] && exemplars == [] && logs == []
      ensures ok ==> resources == map[] && series == map[] && layouts == map[] && resourceCache.items == {}
      ensures Valid() <==> ClearIsSafe(old(Db()), steps, old(resourceCache.items))
    {
      hide Consistent;
      ClearedIsConsistent(Db(), steps);
      DeleteTables(steps);
      ok := steps >= CLEAR_STATEMENTS;
      if ok { resourceCache := new LruSet<Hash>(RESOURCE_CACHE_CAP); }
    }

    /** The repair path: whatever tables it finds, summaries become the aggregation of the deduplicated spans. */
    method RebuildAllTraceSummaries()
      modifies this`summaries
      ensures forall t :: IsDeduplicated(SpansOf(spans, t), DedupedSpansOf(spans, t))
      ensures forall t :: IsSummaryOf(DedupedSpansOf(spans, t), FindSummary(summaries, t), t)
      ensures UniqueKeys(spans) ==> forall t :: SummaryExact(spans, summaries, t)
    {
      hide Filter, RebuiltRow, UniqueKeys, DedupedFrom, IsDeduplicated, IsSummaryOf;
      summaries := map[];
      RebuildAffectedTraceSummaries(set s | s in spans :: s.traceId);
      forall t
        ensures IsDeduplicated(SpansOf(spans, t), DedupedSpansOf(spans, t))
        ensures IsSummaryOf(DedupedSpansOf(spans, t), FindSummary(summaries, t), t)
        ensures UniqueKeys(spans) ==> SummaryExact(spans, summaries, t)
      {
        RebuiltRowAggregates(spans, t);
        if UniqueKeys(spans) { RebuiltRowIsExact(spans, t); }
        if t !in (set s | s in spans :: s.traceId) { NoSpansNoRow(spans, t); }
      }
    }

    /** The writer loop: one message at a time, and between messages everything holds. */
    method Run(messages: seq<WriterMsg>)
      requires Valid() && forall i :: 0 <= i < |messages| ==> MessageOk(messages[i])
      modifies this, resourceCache
      ensures Valid()
      ensures OnlyAdd(messages) ==> points == old(points) + CommittedPoints(messages)
      ensures OnlyAdd(messages) ==> exemplars == old(exemplars) + CommittedExemplars(messages)
      ensures OnlyAdd(messages) ==> logs == old(logs) + CommittedLogs(messages)
      ensures OnlyAdd(messages) && old(spans) == [] && old(dropped) == map[] ==>
        (Redelivery.SameKeySameRow(DeliveredRows(messages)) ==> HoldsAllDelivered(Db(), DeliveredRows(messages)))
    {
      hide Consistent, RunHolds, Redelivery.DeliveryStep, StoresMetrics, AddsResources, OnlyAdd, RefreshesTombstones,
        MetricsWritten, ResourcesUpserted, IsAnnounced, HoldsAllDelivered, Redelivery.SameKeySameRow;
      NothingRun(Db());
      assert messages[..0] == [];
      for i := 0 to |messages|
        invariant Valid() && (resourceCache == old(resourceCache) || fresh(resourceCache))
        invariant OnlyAdd(messages[..i]) ==> RunHolds(old(Db()), messages[..i], Db())
      {
        ghost var before := Db();
        match messages[i] {
          case MsgTraces(batch, now, at, fault) =>
            var _ := WriteTraces(batch, now, at, fault);
            TraceMessageHolds(old(Db()), messages, i, before, Db());
          case MsgMetrics(batch, now, fault) =>
            var _ := WriteMetrics(batch, now, fault);
            MetricMessageHolds(old(Db()), messages, i, before, Db());
          case MsgLogs(batch, failAt, appends) =>
            var _ := WriteLogs(batch, failAt, appends);
            LogMessageHolds(old(Db()), messages, i, before, Db());
          case MsgSweep(cutoff, fileBacked, maxSize, size, first, faults) =>
            var _, _ := PerformSweep(cutoff, fileBacked, maxSize, size, first, faults);
            NotOnlyAdds(messages, i);
          case MsgClear =>
            var _ := PerformClear(CLEAR_STATEMENTS);
            NotOnlyAdds(messages, i);
        }
      }
      assert messages[..|messages|] == messages;
      if OnlyAdd(messages) { WholeRunHolds(old(Db()), messages, Db()); }
    }
  }

  /** Everything a committed trace batch does, in terms of the rows of the batch. */
  ghost predicate StoresBatch(d: Tables, rows: seq<SpanRow>, at: Time, over: set<string>, after: Tables) {
    && StoresSpans(d, rows, at, over, after) && StoresLinks(d, rows, over, after)
    && DropsTraces(d, rows, at, over, after)
    && after.resources == d.resources && after.series == d.series && after.layouts == d.layouts
    && after.points == d.points && after.exemplars == d.exemplars && after.logs == d.logs
  }

  lemma BatchIsStored(d: Tables, rows: seq<SpanRow>, at: Time, over: set<string>, after: Tables)
    requires TracesConsistent(d) && forall i :: 0 <= i < |rows| ==> rows[i].traceId !in d.dropped
    requires TraceWritten(d, NewRows(KeysOf(d.spans), rows), at, over, after)
    requires after
      == d.(spans := after.spans, links := after.links, summaries := after.summaries, dropped := after.dropped)
    ensures StoresBatch(d, rows, at, over, after)
  {
    hide TraceWritten, NewRows, Writable, StoresSpans, StoresLinks, DropsTraces;
    NewRowsAreWritable(d, rows);
    SpansAreStored(d, rows, at, over, after);
    LinksAreStored(d, rows, at, over, after);
    TracesAreDropped(d, rows, at, over, after);
  }

  /** Messages on the writer queue, with the clock readings and failures they meet. */
  datatype WriterMsg =
    | MsgTraces(traces: TraceBatch, now: Time, at: Time, traceFault: TraceFault)
    | MsgMetrics(metrics: MetricBatch, now: Time, metricFault: MetricFault)
    | MsgLogs(logs: LogBatch, failAt: nat, appends: bool)
    | MsgSweep(cutoff: Time, fileBacked: bool, maxSize: int, size: nat -> int, first: PassFault,
               faults: nat -> PassFault)
    | MsgClear

  /** Converted batches carry their dimension rows; a failure point names an existing row. */
  ghost predicate MessageOk(m: WriterMsg) {
    match m
    case MsgTraces(b, _, _, f) => TraceBatchOk(b) && (f.ResourceFault? ==> f.failAt < |b.resources|)
    case MsgMetrics(b, _, f) => MetricBatchOk(b) && (f.ResourcesFail? ==> f.failAt < |b.resources|)
    case MsgLogs(b, _, _) => LogBatchOk(b)
    case MsgSweep(_, _, _, _, _, _) => true
    case MsgClear => true
  }

  // ---- What a run leaves ----

  /** Neither a sweep nor a clear among them. */
  ghost predicate OnlyAdd(messages: seq<WriterMsg>) {
    forall i :: 0 <= i < |messages| ==> messages[i].MsgTraces? || messages[i].MsgMetrics? || messages[i].MsgLogs?
  }

  /** The points of the metric messages that committed, in order. */
  function CommittedPoints(messages: seq<WriterMsg>): seq<Point> {
    if messages == [] then []
    else
      var last := messages[|messages| - 1];
      CommittedPoints(messages[..|messages| - 1]) +
      if last.MsgMetrics? && last.metricFault.Commits? then last.metrics.points else []
  }

  function CommittedExemplars(messages: seq<WriterMsg>): seq<Exemplar> {
    if messages == [] then []
    else
      var last := messages[|messages| - 1];
      CommittedExemplars(messages[..|messages| - 1]) +
      if last.MsgMetrics? && last.metricFault.Commits? then last.metrics.exemplars else []
  }

  /** The records of the log messages whose resources were all stored and whose append succeeded, in order. */
  function CommittedLogs(messages: seq<WriterMsg>): seq<Log> {
    if messages == [] then []
    else
      var last := messages[|messages| - 1];
      CommittedLogs(messages[..|messages| - 1]) +
      if last.MsgLogs? && last.failAt >= |last.logs.resources| && last.appends then last.logs.logs else []
  }

  /** The rows of the trace messages that went through, in order. */
  function DeliveredRows(messages: seq<WriterMsg>): seq<SpanRow> {
    if messages == [] then []
    else
      var last := messages[|messages| - 1];
      DeliveredRows(messages[..|messages| - 1]) +
      if last.MsgTraces? && last.traceFault.NoFault? then last.traces.spans else []
  }

  /** Each delivered span is stored once, column by column, unless its trace had more than 10,000 of them. */
  ghost predicate HoldsAllDelivered(d: Tables, rows: seq<SpanRow>) {
    && UniqueKeys(d.spans)
    && (forall t :: Redelivery.HoldsRows(d, rows, t))
    && (forall t :: t in d.dropped <==> |Redelivery.DeliveredIds(rows, t)| > 10_000)
  }

  /** What holds after each message of a run that only adds. */
  ghost predicate RunHolds(d: Tables, messages: seq<WriterMsg>, after: Tables) {
    && after.points == d.points + CommittedPoints(messages)
    && after.exemplars == d.exemplars + CommittedExemplars(messages)
    && after.logs == d.logs + CommittedLogs(messages)
    && (d.spans == [] && d.dropped == map[] && Redelivery.SameKeySameRow(DeliveredRows(messages)) ==>
          forall t :: Redelivery.HoldsDelivered(after, DeliveredRows(messages), t))
  }

  lemma NothingRun(d: Tables)
    ensures RunHolds(d, [], d)
  {
    assert d.points + [] == d.points && d.exemplars + [] == d.exemplars && d.logs + [] == d.logs;
    if d.spans == [] && d.dropped == map[] {
      forall t ensures Redelivery.HoldsDelivered(d, [], t) {
        assert SpansOf([], t) == [] && Redelivery.Distinct([], t) == {} && Stripped([]) == {};
      }
    }
  }

  lemma NotOnlyAdds(messages: seq<WriterMsg>, n: nat)
    requires n < |messages| && (messages[n].MsgSweep? || messages[n].MsgClear?)
    ensures !OnlyAdd(messages[..n + 1])
  {
    assert messages[..n + 1][n] == messages[n];
  }

  lemma OneMoreMessage(messages: seq<WriterMsg>, n: nat)
    requires n < |messages|
    ensures var last, less, more := messages[n], messages[..n], messages[..n + 1];
      && (OnlyAdd(more) ==> OnlyAdd(less))
      && CommittedPoints(more) == CommittedPoints(less) +
           (if last.MsgMetrics? && last.metricFault.Commits? then last.metrics.points else [])
      && CommittedExemplars(more) == CommittedExemplars(less) +
           (if last.MsgMetrics? && last.metricFault.Commits? then last.metrics.exemplars else [])
      && CommittedLogs(more) == CommittedLogs(less) +
           (if last.MsgLogs? && last.failAt >= |last.logs.resources| && last.appends then last.logs.logs else [])
      && DeliveredRows(more) == DeliveredRows(less) +
           (if last.MsgTraces? && last.traceFault.NoFault? then last.traces.spans else [])
  {
    var less, more := messages[..n], messages[..n + 1];
    assert more[..n] == less && more[n] == messages[n];
    assert forall i :: 0 <= i < n ==> less[i] == more[i];
  }

  /** Messages that leave spans and tombstoned ids alone. */
  lemma SameSpansHold(d: Tables, after: Tables, rows: seq<SpanRow>)
    requires after.spans == d.spans && after.dropped.Keys == d.dropped.Keys
    ensures forall t :: Redelivery.HoldsDelivered(d, rows, t) ==> Redelivery.HoldsDelivered(after, rows, t)
  {
    assert forall t :: t in d.dropped <==> t in d.dropped.Keys;
  }

  lemma TraceMessageHolds(d: Tables, messages: seq<WriterMsg>, n: nat, before: Tables, after: Tables)
    requires n < |messages| && messages[n].MsgTraces? && Consistent(before)
    requires OnlyAdd(messages[..n]) ==> RunHolds(d, messages[..n], before)
    requires after.points == before.points && after.exemplars == before.exemplars && after.logs == before.logs
    requires messages[n].traceFault.NoFault? ==> Redelivery.DeliveryStep(before, messages[n].traces.spans, after)
    requires !messages[n].traceFault.NoFault? ==>
      after.spans == before.spans && after.dropped.Keys == before.dropped.Keys
    ensures OnlyAdd(messages[..n + 1]) ==> RunHolds(d, messages[..n + 1], after)
  {
    hide OnlyAdd, TracesConsistent, Referenced, Redelivery.DeliveryStep, Redelivery.HoldsDelivered,
      Redelivery.SameKeySameRow, CommittedPoints, CommittedExemplars, CommittedLogs, DeliveredRows;
    OneMoreMessage(messages, n);
    var less, more := DeliveredRows(messages[..n]), DeliveredRows(messages[..n + 1]);
    if OnlyAdd(messages[..n + 1]) && d.spans == [] && d.dropped == map[] && Redelivery.SameKeySameRow(more) {
      FewerSameRows(less, more);
      if messages[n].traceFault.NoFault? {
        forall t ensures Redelivery.HoldsDelivered(after, more, t) {
          Redelivery.StepHoldsDelivered(before, less, messages[n].traces.spans, after, t);
        }
      } else {
        assert more == less;
        SameSpansHold(before, after, less);
      }
    }
  }

  lemma FewerSameRows(less: seq<SpanRow>, more: seq<SpanRow>)
    requires less <= more && Redelivery.SameKeySameRow(more)
    ensures Redelivery.SameKeySameRow(less)
  {
    assert forall r :: r in less ==> r in more;
  }

  lemma MetricMessageHolds(d: Tables, messages: seq<WriterMsg>, n: nat, before: Tables, after: Tables)
    requires n < |messages| && messages[n].MsgMetrics? && MetricBatchOk(messages[n].metrics)
    requires OnlyAdd(messages[..n]) ==> RunHolds(d, messages[..n], before)
    requires if messages[n].metricFault.Commits? then StoresMetrics(before, messages[n].metrics, messages[n].now, after)
      else after == before
    ensures OnlyAdd(messages[..n + 1]) ==> RunHolds(d, messages[..n + 1], after)
  {
    hide OnlyAdd, Redelivery.HoldsDelivered, Redelivery.SameKeySameRow, AddsResources, MergesSeries, AddsLayouts,
      CommittedPoints, CommittedExemplars, CommittedLogs, DeliveredRows;
    OneMoreMessage(messages, n);
    SameSpansHold(before, after, DeliveredRows(messages[..n]));
    assert DeliveredRows(messages[..n]) + [] == DeliveredRows(messages[..n]);
    assert messages[n].metrics.points == [] ==> messages[n].metrics.exemplars == [] by {
      var b := messages[n].metrics;
      assert b.exemplars != [] ==> HasPoint(b.points, b.exemplars[0].pointId);
    }
  }

  lemma LogMessageHolds(d: Tables, messages: seq<WriterMsg>, n: nat, before: Tables, after: Tables)
    requires n < |messages| && messages[n].MsgLogs?
    requires OnlyAdd(messages[..n]) ==> RunHolds(d, messages[..n], before)
    requires after == before.(resources := after.resources, logs := after.logs)
    requires after.logs == before.logs +
      if messages[n].failAt >= |messages[n].logs.resources| && messages[n].appends then messages[n].logs.logs else []
    ensures OnlyAdd(messages[..n + 1]) ==> RunHolds(d, messages[..n + 1], after)
  {
    hide OnlyAdd, Redelivery.HoldsDelivered, Redelivery.SameKeySameRow,
      CommittedPoints, CommittedExemplars, CommittedLogs, DeliveredRows;
    OneMoreMessage(messages, n);
    SameSpansHold(before, after, DeliveredRows(messages[..n]));
    assert DeliveredRows(messages[..n]) + [] == DeliveredRows(messages[..n]);
  }

  /** At the end, in terms of the rows themselves. */
  lemma WholeRunHolds(d: Tables, messages: seq<WriterMsg>, after: Tables)
    requires RunHolds(d, messages, after) && Consistent(after)
    ensures after.points == d.points + CommittedPoints(messages)
    ensures after.exemplars == d.exemplars + CommittedExemplars(messages)
    ensures after.logs == d.logs + CommittedLogs(messages)
    ensures d.spans == [] && d.dropped == map[] && Redelivery.SameKeySameRow(DeliveredRows(messages)) ==>
      HoldsAllDelivered(after, DeliveredRows(messages))
  {
    hide Referenced, SummaryExact, LinksExact, Redelivery.SameKeySameRow, Redelivery.HoldsRows;
    var rows := DeliveredRows(messages);
    if d.spans == [] && d.dropped == map[] && Redelivery.SameKeySameRow(rows) {
      forall t ensures Redelivery.HoldsRows(after, rows, t) {
        assert Redelivery.HoldsDelivered(after, rows, t) && WithinLimit(after.spans, after.dropped, t);
        Redelivery.DistinctAreRecorded(after, rows, t);
      }
      forall t ensures t in after.dropped <==> |Redelivery.DeliveredIds(rows, t)| > 10_000 {
        assert Redelivery.HoldsDelivered(after, rows, t);
        Redelivery.DistinctAreIds(rows, t);
      }
    }
  }

  const CLEAR_STATEMENTS: nat := 11

  /** The tables after the first `steps` deletes of a clear. */
  function Cleared(d: Tables, steps: nat): Tables {
    Tables(if steps >= 2 then [] else d.spans, if steps >= 1 then [] else d.links,
           if steps >= 3 then map[] else d.summaries, if steps >= 10 then map[] else d.dropped,
           if steps >= 9 then map[] else d.resources, if steps >= 7 then map[] else d.series,
           if steps >= 8 then map[] else d.layouts, if steps >= 5 then [] else d.points,
           if steps >= 4 then [] else d.exemplars, if steps >= 6 then [] else d.logs)
  }

  /** When a clear that stops after `steps` statements does no harm: links without spans' counts, summaries
      without spans, and a cache that outlives its rows are the three states it must not stop in. */
  predicate ClearIsSafe(d: Tables, steps: nat, cached: set<Hash>) {
    (steps == 1 ==> d.links == []) && (steps == 2 ==> d.spans == []) && (9 <= steps < CLEAR_STATEMENTS ==> cached == {})
  }

  lemma ClearedIsConsistent(d: Tables, steps: nat)
    requires Consistent(d)
    ensures Consistent(Cleared(d, steps)) <==> (steps == 1 ==> d.links == []) && (steps == 2 ==> d.spans == [])
  {
    var e := Cleared(d, steps);
    if steps == 1 && d.links != [] {
      LinklessSpan(d);
    } else if steps == 2 && d.spans != [] {
      var t := d.spans[0].traceId;
      assert SummaryExact(d.spans, d.summaries, t);
      FilterHas(d.spans, InTrace(t));
      assert d.spans[0] in SpansOf(d.spans, t);
      assert !SummaryExact(e.spans, e.summaries, t);
    } else {
      forall t ensures SummaryExact(e.spans, e.summaries, t) && WithinLimit(e.spans, e.dropped, t) {
        assert SummaryExact(d.spans, d.summaries, t) && WithinLimit(d.spans, d.dropped, t);
      }
      assert steps < 2 ==> e.spans == d.spans && e.links == d.links;
      assert forall s :: s in e.spans ==> Numbered(LinksOf(e.links, s.Key()), s.linkCount);
    }
  }

  lemma LinklessSpan(d: Tables)
    requires LinksExact(d.spans, d.links) && d.links != []
    ensures !LinksExact(d.spans, [])
  {
    var l := d.links[0];
    assert l in d.links;
    var s :| s in d.spans && s.Key() == (l.sourceTraceId, l.sourceSpanId);
    FilterHas(d.links, FromSpan(s.Key()));
    assert l in LinksOf(d.links, s.Key());
    assert Numbered(LinksOf(d.links, s.Key()), s.linkCount) && s.linkCount > 0;
    assert !Numbered(LinksOf([], s.Key()), s.linkCount);
  }

  /** A store of one span with one link. */
  const ONE_ROW := SpanRow("t", "s", "", "", "", 0, 1, "", [Link("u", "v", "")], 7, "")
  const ONE_LINK := Tables([Stored(ONE_ROW, 0)], LinksFor(ONE_ROW), map["t" := Merged(None, ONE_ROW, 0)], map[],
                           map[7 := Resource("", "")], map[], map[], [], [], [])

  lemma OneLinkIsConsistent()
    ensures Consistent(ONE_LINK)
  {
    var span := Stored(ONE_ROW, 0);
    forall t ensures SpansOf([span], t) == if t == "t" then [span] else [] {
      assert [span][..0] == [];
    }
    MergeStartsAggregate(ONE_ROW, 0);
    LinksForKey(ONE_ROW, span.Key());
    hide IsAggregate, Merged;
    assert Merged(None, ONE_ROW, 0).traceId == "t" by { MergedOfTrace(ONE_ROW, 0); }
    forall t ensures SummaryExact(ONE_LINK.spans, ONE_LINK.summaries, t) && WithinLimit(ONE_LINK.spans, map[], t) {}
    assert span in ONE_LINK.spans;
    assert LinksExact(ONE_LINK.spans, ONE_LINK.links);
  }

  lemma MergedOfTrace(row: SpanRow, at: Time)
    ensures Merged(None, row, at).traceId == row.traceId
  {
  }

  /** Stopped after one, two or nine statements, a clear leaves that store with a span whose links are gone, a summary
      without spans, or a cache of a resource that is gone. */
  lemma InterruptedClearsHarm()
    ensures Consistent(ONE_LINK)
    ensures !ClearIsSafe(ONE_LINK, 1, {7}) && !Consistent(Cleared(ONE_LINK, 1))
    ensures !ClearIsSafe(ONE_LINK, 2, {7}) && !Consistent(Cleared(ONE_LINK, 2))
    ensures !ClearIsSafe(ONE_LINK, 9, {7}) && 7 in ONE_LINK.resources && 7 !in Cleared(ONE_LINK, 9).resources
  {
    hide Consistent;
    OneLinkIsConsistent();
    ClearedIsConsistent(ONE_LINK, 1);
    ClearedIsConsistent(ONE_LINK, 2);
  }

  /** Every fact row at or after the cutoff is still there. */
  ghost predicate KeepsFrom(d: Tables, cutoff: Time, after: Tables) {
    && (forall s :: s in d.spans && s.startTs >= cutoff ==> s in after.spans)
    && (forall p :: p in d.points && p.ts >= cutoff ==> p in after.points)
    && (forall l :: l in d.logs && l.ts >= cutoff ==> l in after.logs)
  }

  lemma KeepsItself(d: Tables, cutoff: Time)
    ensures KeepsFrom(d, cutoff, d)
  {
  }

  lemma DeleteTrims(d: Tables, cutoff: Time, after: Tables)
    requires FactsDeleted(d, cutoff, after)
    ensures IsTrimmed(d, cutoff, after)
  {
    hide Filter;
  }

  lemma PruneTrims(d: Tables, cutoff: Time, after: Tables, steps: nat)
    requires IsTrimmed(d, cutoff, after)
    ensures IsTrimmed(d, cutoff, Pruned(after, steps)) && FactCount(Pruned(after, steps)) == FactCount(after)
  {
    hide Filter;
  }

  /** What a trim leaves, and that it leaves nothing old. */
  lemma TrimKeeps(d: Tables, cutoff: Time, after: Tables)
    requires IsTrimmed(d, cutoff, after)
    ensures KeepsFrom(d, cutoff, after)
    ensures forall t :: t in FactTimes(after) ==> t >= cutoff && t in FactTimes(d)
  {
    hide Filter;
    FilterHas(d.spans, NotBefore(cutoff));
    FilterHas(d.points, PointNotBefore(cutoff));
    FilterHas(d.logs, LogNotBefore(cutoff));
  }

  lemma TrimRemoves(d: Tables, cutoff: Time, after: Tables, t: Time)
    requires IsTrimmed(d, cutoff, after) && t in FactTimes(d) && t < cutoff
    ensures FactCount(after) < FactCount(d)
    ensures KeepsFrom(d, cutoff, after) && FactTimes(after) <= FactTimes(d)
  {
    hide Filter;
    TrimKeeps(d, cutoff, after);
    DeleteRemovesSomething(d, cutoff, after, t);
  }

  const EMPTY_TABLES := Tables([], [], map[], map[], map[], map[], map[], [], [], [])

  lemma EmptyIsConsistent()
    ensures Consistent(EMPTY_TABLES)
  {
    forall t ensures SummaryExact([], map[], t) && WithinLimit([], map[], t) {}
  }

  function RebuiltOr(affected: set<string>, spans: seq<Span>, summaries: map<string, Summary>,
                     t: string): Option<Summary> {
    if t in affected then RebuiltRow(spans, t) else FindSummary(summaries, t)
  }

  lemma NoSpansNoRow(spans: seq<Span>, t: string)
    requires t !in (set s | s in spans :: s.traceId)
    ensures RebuiltRow(spans, t) == None
  {
    assert forall i :: 0 <= i < |spans| ==> spans[i] in spans;
    FilterNone(spans, InTrace(t));
  }

  lemma SweptIsTraceTablesOnly(d: Tables, cutoff: Time, e: Tables, f: Tables)
    requires Swept(d, cutoff, e)
    requires e.spans == f.spans && e.links == f.links && e.summaries == f.summaries && e.dropped == f.dropped
    ensures Swept(d, cutoff, f)
  {
    hide Filter, RebuiltRow;
  }

  lemma SurvivorsAreLive(d: Tables, rows: seq<SpanRow>)
    ensures forall i :: 0 <= i < |Redelivery.Surviving(d, rows)| ==>
      Redelivery.Surviving(d, rows)[i].traceId !in d.dropped && Redelivery.Surviving(d, rows)[i] in rows
  {
    FilterHas(rows, Redelivery.NotDropped(d.dropped));
    var s := Redelivery.Surviving(d, rows);
    assert forall i :: 0 <= i < |s| ==> s[i] in s;
  }

  lemma NothingSurvives(start: Tables, rows: seq<SpanRow>, d: Tables, at: Time)
    requires Redelivery.Surviving(start, rows) == []
    requires d == start.(resources := d.resources, dropped := d.dropped) && d.dropped.Keys == start.dropped.Keys
    ensures Redelivery.DeliveryStep(start, rows, d)
  {
    EmptyWrite(start.(dropped := d.dropped), at);
    assert Redelivery.Inserted(start, rows) == [];
    assert TraceWritten(start.(dropped := d.dropped), Redelivery.Inserted(start, rows), at, {}, d);
  }

  /** What the batch's transaction did is a delivery of the whole batch, and leaves everything consistent. */
  lemma TraceBatchDelivered(start: Tables, batch: TraceBatch, d: Tables, at: Time, over: set<string>, after: Tables)
    requires Consistent(d) && TraceBatchOk(batch)
    requires d == start.(resources := d.resources, dropped := d.dropped) && d.dropped.Keys == start.dropped.Keys
    requires d.resources == ResourcesUpserted(start.resources, batch.resources)
    requires TraceWritten(d, Redelivery.Inserted(start, batch.spans), at, over, after)
    requires after
      == d.(spans := after.spans, links := after.links, summaries := after.summaries, dropped := after.dropped)
    ensures Redelivery.DeliveryStep(start, batch.spans, after)
    ensures Consistent(after)
  {
    hide Filter, NewRows, TracesConsistent, Referenced, Writable, FindSummary, Folded, AllLinks, TraceBatchOk;
    var rows := Redelivery.Inserted(start, batch.spans);
    Redelivery.InsertedIsWritable(start, d.dropped, batch.spans);
    InsertedHasResources(start, batch, d);
    assert TraceWritten(start.(dropped := d.dropped), rows, at, over, after);
    hide TraceWritten;
    WriteKeepsTraces(d, rows, at, over, after);
    TraceWriteKeepsReferences(d, rows, at, over, after);
  }

  /** Every inserted span's resource was upserted with its batch. */
  lemma InsertedHasResources(start: Tables, batch: TraceBatch, d: Tables)
    requires TraceBatchOk(batch) && d.resources == ResourcesUpserted(start.resources, batch.resources)
    ensures var rows := Redelivery.Inserted(start, batch.spans);
      forall i :: 0 <= i < |rows| ==> rows[i].resourceHash in d.resources
  {
    var rows := Redelivery.Inserted(start, batch.spans);
    NewRowsAreRows(KeysOf(start.spans), Redelivery.Surviving(start, batch.spans));
    FilterHas(batch.spans, Redelivery.NotDropped(start.dropped));
    ResourcesUpsertedHas(start.resources, batch.resources);
    hide Filter, NewRows;
    forall i | 0 <= i < |rows| ensures rows[i].resourceHash in d.resources {
      assert rows[i] in rows;
      var j :| 0 <= j < |batch.spans| && batch.spans[j] == rows[i];
      assert HasResource(batch.resources, batch.spans[j].resourceHash);
    }
  }

  lemma UpsertKeepsConsistent(d: Tables, rows: seq<ResourceRow>, n: nat)
    requires Consistent(d) && n <= |rows|
    ensures Consistent(d.(resources := ResourcesUpserted(d.resources, rows[..n])))
  {
    hide TracesConsistent;
    ResourcesUpsertedHas(d.resources, rows[..n]);
    SameTraceTables(d, d.(resources := ResourcesUpserted(d.resources, rows[..n])));
  }

  lemma MetricsKeepConsistent(d: Tables, b: MetricBatch, now: Time)
    requires Consistent(d) && MetricBatchOk(b)
    ensures Consistent(MetricsWritten(d, b, now))
  {
    hide TracesConsistent, Referenced;
    MetricsKeepReferences(d, b, now);
    SameTraceTables(d, MetricsWritten(d, b, now));
  }

  lemma LogsKeepConsistent(d: Tables, b: LogBatch)
    requires Consistent(d) && LogBatchOk(b)
    ensures Consistent(d.(resources := ResourcesUpserted(d.resources, b.resources), logs := d.logs + b.logs))
  {
    hide TracesConsistent;
    SameTraceTables(d, d.(resources := ResourcesUpserted(d.resources, b.resources), logs := d.logs + b.logs));
    ResourcesUpsertedHas(d.resources, b.resources);
    assert forall i :: 0 <= i < |b.logs| ==> HasResource(b.resources, b.logs[i].resourceHash);
  }

  lemma PruneKeepsConsistent(d: Tables, steps: nat)
    requires Consistent(d)
    ensures Consistent(Pruned(d, steps))
  {
    hide TracesConsistent, Referenced;
    PruneKeepsReferences(d, steps);
    SameTraceTables(d, Pruned(d, steps));
  }

  /** Dimension and other fact tables play no part in the consistency of the trace tables. */
  lemma SameTraceTables(d: Tables, e: Tables)
    requires d.spans == e.spans && d.links == e.links && d.summaries == e.summaries && d.dropped.Keys == e.dropped.Keys
    ensures TracesConsistent(d) == TracesConsistent(e)
  {
    forall t ensures WithinLimit(d.spans, d.dropped, t) == WithinLimit(e.spans, e.dropped, t) {}
  }

  lemma RefreshKeepsConsistent(d: Tables, rows: seq<SpanRow>, now: Time)
    requires Consistent(d)
    ensures Consistent(d.(dropped := Refreshed(d.dropped, rows, now)))
    ensures Refreshed(d.dropped, rows, now).Keys == d.dropped.Keys
  {
    hide Filter;
    SameTraceTables(d, d.(dropped := Refreshed(d.dropped, rows, now)));
  }

  /** A batch of duplicates is announced as an empty batch. */
  function EmptyEvent(summaries: map<string, Summary>): (e: TraceEvent)
    ensures e.droppedTraceIds == {} && IsAnnounced(e, [], summaries)
  {
    TraceEvent([], map[], {})
  }

  lemma TouchedSnapshot(existing: map<string, TraceSummaryState>, touched: map<string, TraceSummaryState>,
                        summaries: map<string, Summary>, rows: seq<SpanRow>, inserted: seq<SpanRow>)
    requires Separate(existing)
    requires Snapshot(existing) == map t | t in summaries && RowsOf(rows, t) != [] :: Some(summaries[t])
    requires touched == map t | t in existing && RowsOf(inserted, t) != [] :: existing[t]
    requires forall t :: RowsOf(inserted, t) != [] ==> RowsOf(rows, t) != []
    ensures Separate(touched) && touched.Values <= existing.Values
    ensures Snapshot(touched) == TouchedViews(summaries, inserted)
  {
    hide Filter;
    assert forall t :: t in existing <==> t in Snapshot(existing);
    assert forall t :: t in existing ==> Snapshot(existing)[t] == existing[t].View();
  }

  /** The stored summaries of the traces that receive new spans. */
  function TouchedViews(summaries: map<string, Summary>, inserted: seq<SpanRow>): map<string, Option<Summary>> {
    map t | t in summaries && RowsOf(inserted, t) != [] :: Some(summaries[t])
  }

  /** The summaries of the touched traces after the incremental merge. */
  function Merges(summaries: map<string, Summary>, inserted: seq<SpanRow>, at: Time): map<string, Summary> {
    var views := FoldedAll(TouchedViews(summaries, inserted), inserted, at);
    map t | t in views && views[t].Some? :: views[t].value
  }

  function Oversized(states: map<string, Summary>, among: set<string>): set<string>
    requires among <= states.Keys
  {
    set t | t in among && states[t].spanCount > MAX_SPANS_PER_TRACE
  }

  function Tombstones(states: map<string, Summary>, over: set<string>, at: Time): map<string, Tombstone> {
    map t | t in over && t in states :: Tombstone(at, states[t].spanCount)
  }

  /** The tables after the statements of a trace write, as the code computes them. */
  function WrittenTables(d: Tables, inserted: seq<SpanRow>, at: Time, over: set<string>): Tables {
    var merged := Merges(d.summaries, inserted, at);
    d.(spans := Filter(SpansAppended(d, inserted, at), NotInTraces(over)),
       links := Filter(d.links + AllLinks(inserted), NotFromTraces(over)),
       summaries := (d.summaries - over) + (merged - over),
       dropped := d.dropped + Tombstones(merged, over, at))
  }

  /** The running state of a touched trace counts exactly its stored and inserted spans. */
  lemma MergesAreExact(d: Tables, inserted: seq<SpanRow>, at: Time, t: string)
    requires TracesConsistent(d) && Writable(d, inserted)
    ensures var merged := Merges(d.summaries, inserted, at);
      (t in merged <==> RowsOf(inserted, t) != []) &&
      (t in merged ==>
        Some(merged[t]) == Folded(FindSummary(d.summaries, t), RowsOf(inserted, t), at) &&
        merged[t].spanCount == |SpansOf(SpansAppended(d, inserted, at), t)|)
  {
    FoldedByTrace(TouchedViews(d.summaries, inserted), inserted, at, t);
    MergedRowIsExact(d, inserted, at, t);
  }

  lemma WrittenTrace(d: Tables, inserted: seq<SpanRow>, at: Time, over: set<string>, t: string)
    requires TracesConsistent(d) && Writable(d, inserted)
    requires over == Oversized(Merges(d.summaries, inserted, at), Merges(d.summaries, inserted, at).Keys)
    ensures t in over <==> IsOver(d, inserted, at, t)
    ensures t in over ==>
      (t in Merges(d.summaries, inserted, at) &&
       Merges(d.summaries, inserted, at)[t].spanCount == |SpansOf(SpansAppended(d, inserted, at), t)|)
    ensures FindSummary(WrittenTables(d, inserted, at, over).summaries, t) ==
      if t in over then None else Folded(FindSummary(d.summaries, t), RowsOf(inserted, t), at)
  {
    hide Filter, FoldedAll;
    MergesAreExact(d, inserted, at, t);
  }

  /** Deciding by the running count, and merging instead of aggregating, is what a trace write should do. */
  lemma WrittenAsSpecified(d: Tables, inserted: seq<SpanRow>, at: Time, over: set<string>)
    requires TracesConsistent(d) && Writable(d, inserted)
    requires over == Oversized(Merges(d.summaries, inserted, at), Merges(d.summaries, inserted, at).Keys)
    ensures TraceWritten(d, inserted, at, over, WrittenTables(d, inserted, at, over))
  {
    hide Filter, Folded, FoldedAll, AllLinks, NewRows;
    var after := WrittenTables(d, inserted, at, over);
    hide TracesConsistent, Writable, FindSummary, IsOver, Merges;
    forall t
      ensures t in over <==> IsOver(d, inserted, at, t)
      ensures FindSummary(after.summaries, t) ==
        if t in over then None else Folded(FindSummary(d.summaries, t), RowsOf(inserted, t), at)
      ensures t in over ==>
        t in after.dropped && after.dropped[t] == Tombstone(at, |SpansOf(SpansAppended(d, inserted, at), t)|)
    {
      WrittenTrace(d, inserted, at, over, t);
    }
    assert after.dropped.Keys == d.dropped.Keys + over;
  }

  function KeptRow(over: set<string>): SpanRow -> bool { (r: SpanRow) => r.traceId !in over }

  /** A trace event announces exactly the inserted spans of traces still stored, with their stored summaries. */
  ghost predicate IsAnnounced(event: TraceEvent, inserted: seq<SpanRow>, summaries: map<string, Summary>) {
    event.spans == Filter(inserted, KeptRow(event.droppedTraceIds)) &&
    event.summaries == map t | t in summaries && RowsOf(event.spans, t) != [] :: summaries[t]
  }

  /** A trace event announces each fresh row of a trace that was kept, once, with its trace's summary. */
  ghost predicate AnnouncesBatch(d: Tables, rows: seq<SpanRow>, event: TraceEvent, summaries: map<string, Summary>) {
    && UniqueRows(event.spans)
    && (forall r :: r in event.spans <==> IsFreshRow(d, rows, r) && r.traceId !in event.droppedTraceIds)
    && (forall t :: t in event.summaries <==> t in summaries && HasRowOf(event.spans, t))
    && (forall t :: t in event.summaries ==> event.summaries[t] == summaries[t])
  }

  ghost predicate HasRowOf(rows: seq<SpanRow>, t: string) { exists r :: r in rows && r.traceId == t }

  lemma RowsOfHas(rows: seq<SpanRow>, t: string)
    ensures RowsOf(rows, t) != [] <==> HasRowOf(rows, t)
  {
    FilterHas(rows, RowInTrace(t));
    if RowsOf(rows, t) != [] { assert RowsOf(rows, t)[0] in RowsOf(rows, t); }
  }

  lemma {:induction false} FilterKeepsUnique(rows: seq<SpanRow>, keep: SpanRow -> bool)
    requires UniqueRows(rows)
    ensures UniqueRows(Filter(rows, keep))
  {
    if rows != [] {
      var n := |rows| - 1;
      FilterKeepsUnique(rows[..n], keep);
      FilterHas(rows[..n], keep);
      var rest := Filter(rows[..n], keep);
      forall i | 0 <= i < |rest| ensures (rest[i].traceId, rest[i].spanId) != (rows[n].traceId, rows[n].spanId) {
        assert rest[i] in rest;
        var k :| 0 <= k < n && rows[k] == rest[i];
      }
    }
  }

  lemma BatchIsAnnounced(d: Tables, rows: seq<SpanRow>, event: TraceEvent, summaries: map<string, Summary>)
    requires IsAnnounced(event, NewRows(KeysOf(d.spans), rows), summaries)
    ensures AnnouncesBatch(d, rows, event, summaries)
  {
    var added := NewRows(KeysOf(d.spans), rows);
    NewRowsAreNew(KeysOf(d.spans), rows);
    NewRowsAreFresh(d, rows);
    FilterHas(added, KeptRow(event.droppedTraceIds));
    FilterKeepsUnique(added, KeptRow(event.droppedTraceIds));
    hide NewRows, Filter, UniqueRows, IsFreshRow;
    forall t ensures RowsOf(event.spans, t) != [] <==> HasRowOf(event.spans, t) { RowsOfHas(event.spans, t); }
  }

  lemma SameAnnounced(d: Tables, e: Tables, rows: seq<SpanRow>, event: TraceEvent, summaries: map<string, Summary>)
    requires d.spans == e.spans && AnnouncesBatch(d, rows, event, summaries)
    ensures AnnouncesBatch(e, rows, event, summaries)
  {
    forall r ensures IsFreshRow(d, rows, r) <==> IsFreshRow(e, rows, r) {
      forall i: nat ensures IsFresh(d, rows, i) <==> IsFresh(e, rows, i) {}
    }
    hide IsFreshRow, UniqueRows, HasRowOf;
  }

  lemma DropNothing(spans: seq<Span>, links: seq<SpanLink>)
    ensures Filter(spans, NotInTraces({})) == spans && Filter(links, NotFromTraces({})) == links
  {
    FilterAll(spans, NotInTraces({}));
    FilterAll(links, NotFromTraces({}));
  }

  lemma DropOneMore(spans: seq<Span>, links: seq<SpanLink>, over: set<string>, t: string)
    ensures Filter(Filter(spans, NotInTraces(over)), NotInTraces({t})) == Filter(spans, NotInTraces(over + {t}))
    ensures Filter(Filter(links, NotFromTraces(over)), NotFromTraces({t})) == Filter(links, NotFromTraces(over + {t}))
  {
    FilterCompose(spans, NotInTraces(over), NotInTraces({t}), NotInTraces(over + {t}));
    FilterCompose(links, NotFromTraces(over), NotFromTraces({t}), NotFromTraces(over + {t}));
  }

  lemma NewRowsAreWritable(d: Tables, rows: seq<SpanRow>)
    requires forall i :: 0 <= i < |rows| ==> rows[i].traceId !in d.dropped
    ensures Writable(d, NewRows(KeysOf(d.spans), rows))
  {
    NewRowsAreNew(KeysOf(d.spans), rows);
    NewRowsAreRows(KeysOf(d.spans), rows);
  }

  /** A batch of nothing but duplicates writes nothing. */
  lemma EmptyWrite(d: Tables, at: Time)
    ensures TraceWritten(d, [], at, {}, d)
  {
    DropNothing(d.spans, d.links);
    assert SpansAppended(d, [], at) == d.spans && d.links + AllLinks([]) == d.links;
  }

  lemma StatesTouched(d: Tables, rows: seq<SpanRow>, inserted: seq<SpanRow>)
    requires inserted == NewRows(KeysOf(d.spans), rows)
    ensures forall t :: RowsOf(inserted, t) != [] ==> RowsOf(rows, t) != []
  {
    NewRowsAreRows(KeysOf(d.spans), rows);
    forall t | RowsOf(inserted, t) != [] ensures RowsOf(rows, t) != [] {
      FilterHas(inserted, RowInTrace(t));
      FilterHas(rows, RowInTrace(t));
      assert RowsOf(inserted, t)[0] in RowsOf(inserted, t);
      var i :| 0 <= i < |inserted| && inserted[i] == RowsOf(inserted, t)[0];
      assert inserted[i] in RowsOf(rows, t);
    }
  }

  lemma LookupIsExact(spans: seq<Span>, summaries: map<string, Summary>, existing: set<string>,
                      candidates: map<string, set<string>>, row: SpanRow)
    requires SummaryExact(spans, summaries, row.traceId)
    requires row.traceId in existing <==> row.traceId in summaries
    requires row.traceId in existing ==> row.traceId in candidates && row.spanId in candidates[row.traceId]
    ensures RowKey(row) in KeysOf(spans) <==>
      exists s :: s in spans && s.traceId in candidates && s.spanId in candidates[s.traceId] && s.Key() == RowKey(row)
  {
    FilterHas(spans, InTrace(row.traceId));
    forall s | s in spans && s.Key() == RowKey(row)
      ensures s.traceId in candidates && s.spanId in candidates[s.traceId]
    {
      assert s in SpansOf(spans, row.traceId);
    }
  }

  lemma HasRowsOf(rows: seq<SpanRow>, i: nat)
    requires i < |rows|
    ensures RowsOf(rows, rows[i].traceId) != []
  {
    FilterHas(rows, RowInTrace(rows[i].traceId));
    assert rows[i] in RowsOf(rows, rows[i].traceId);
  }

  /** Every tombstone a row met was last seen now; otherwise tombstones are as they were. */
  ghost predicate RefreshesTombstones(before: map<string, Tombstone>, rows: seq<SpanRow>, now: Time,
                                      after: map<string, Tombstone>) {
    forall t :: t in before ==>
      && t in after && after[t].spanCount == before[t].spanCount
      && after[t].lastSeen == if exists r :: r in rows && r.traceId == t then now else before[t].lastSeen
  }

  /** The tombstones a batch meets, and that a batch that meets none leaves them alone. */
  lemma MetTombstones(dropped: map<string, Tombstone>, rows: seq<SpanRow>, now: Time, met: set<string>)
    requires met == set t | t in dropped && RowsOf(rows, t) != []
    ensures forall i :: 0 <= i < |rows| ==> (rows[i].traceId in met <==> rows[i].traceId in dropped)
    ensures Refreshed(dropped, rows, now) ==
      map t | t in dropped :: if t in met then dropped[t].(lastSeen := now) else dropped[t]
    ensures met == {} ==> Refreshed(dropped, rows, now) == dropped
  {
    forall i | 0 <= i < |rows| ensures RowsOf(rows, rows[i].traceId) != [] { HasRowsOf(rows, i); }
    hide Filter;
    assert forall t :: t in dropped && RowsOf(rows, t) != [] ==> t in met;
  }

  lemma RefreshedTombstones(dropped: map<string, Tombstone>, rows: seq<SpanRow>, now: Time)
    ensures Refreshed(dropped, rows, now).Keys == dropped.Keys
    ensures RefreshesTombstones(dropped, rows, now, Refreshed(dropped, rows, now))
  {
    forall t ensures RowsOf(rows, t) != [] <==> exists r :: r in rows && r.traceId == t {
      FilterHas(rows, RowInTrace(t));
      if RowsOf(rows, t) != [] { assert RowsOf(rows, t)[0] in RowsOf(rows, t); }
    }
    hide Filter;
  }

  /** The rows of live traces, each as often as in the batch, and no others. */
  ghost predicate HoldsLive(rows: seq<SpanRow>, dropped: map<string, Tombstone>, live: seq<SpanRow>) {
    forall r :: multiset(live)[r] == if r.traceId in dropped then 0 else multiset(rows)[r]
  }

  lemma LiveRowsPass(dropped: map<string, Tombstone>, rows: seq<SpanRow>)
    ensures HoldsLive(rows, dropped, Filter(rows, Redelivery.NotDropped(dropped)))
  {
    forall r
      ensures multiset(Filter(rows, Redelivery.NotDropped(dropped)))[r]
        == if r.traceId in dropped then 0 else multiset(rows)[r]
    {
      FilterCounts(rows, Redelivery.NotDropped(dropped), r);
    }
  }

  /** The batch's transaction leaves earlier tombstones alone. */
  lemma WriteKeepsTombstones(d: Tables, rows: seq<SpanRow>, at: Time, over: set<string>, after: Tables)
    requires StoresBatch(d, rows, at, over, after) && forall i :: 0 <= i < |rows| ==> rows[i].traceId !in d.dropped
    ensures forall t :: t in d.dropped ==> t in after.dropped && after.dropped[t] == d.dropped[t]
  {
    hide StoresSpans, StoresLinks, SpanIds;
    hide IsFresh;
  }

  lemma SameTombstones(before: map<string, Tombstone>, rows: seq<SpanRow>, now: Time, refreshed: map<string, Tombstone>,
                       after: map<string, Tombstone>)
    requires RefreshesTombstones(before, rows, now, refreshed)
    requires forall t :: t in refreshed ==> t in after && after[t] == refreshed[t]
    ensures RefreshesTombstones(before, rows, now, after)
  {
  }

  function Refreshed(dropped: map<string, Tombstone>, rows: seq<SpanRow>, now: Time): map<string, Tombstone> {
    map t | t in dropped :: if RowsOf(rows, t) != [] then dropped[t].(lastSeen := now) else dropped[t]
  }
}
