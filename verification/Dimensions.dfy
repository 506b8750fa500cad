// Upserts into, and pruning of, the dimension tables, and that no fact row is ever left without its dimensions.
module Dimensions {
  import opened Filters
  import opened Order
  import opened Rows
  import opened TraceSummary
  import opened Database
  import opened TraceTables

  // ---- INSERT ... ON CONFLICT ----

  /** `INSERT INTO resources ... ON CONFLICT DO NOTHING`, row by row. */
  function ResourcesUpserted(table: map<Hash, Resource>, rows: seq<ResourceRow>): map<Hash, Resource> {
    if rows == [] then table
    else
      var n := |rows| - 1;
      var before := ResourcesUpserted(table, rows[..n]);
      if rows[n].hash in before then before else before[rows[n].hash := rows[n].resource]
  }

  /** The series merge: a known series only takes the new description and last-seen time. */
  function SeriesMerged(table: map<Hash, Series>, rows: seq<SeriesRow>, now: Time): map<Hash, Series> {
    if rows == [] then table
    else
      var n := |rows| - 1;
      var before := SeriesMerged(table, rows[..n], now);
      var row := rows[n];
      if row.key in before
      then before[row.key := before[row.key].(description := row.series.description, lastSeen := now)]
      else before[row.key := row.series.(firstSeen := now, lastSeen := now)]
  }

  function LayoutsMerged(table: map<Hash, string>, rows: seq<LayoutRow>): map<Hash, string> {
    if rows == [] then table
    else
      var n := |rows| - 1;
      var before := LayoutsMerged(table, rows[..n]);
      if rows[n].hash in before then before else before[rows[n].hash := rows[n].layout]
  }

  lemma {:induction false} ResourcesUpsertedHas(table: map<Hash, Resource>, rows: seq<ResourceRow>)
    ensures forall h :: h in table ==>
      h in ResourcesUpserted(table, rows) && ResourcesUpserted(table, rows)[h] == table[h]
    ensures forall h :: HasResource(rows, h) ==> h in ResourcesUpserted(table, rows)
    ensures forall h :: h in ResourcesUpserted(table, rows) ==> h in table || HasResource(rows, h)
  {
    if rows != [] {
      var n := |rows| - 1;
      ResourcesUpsertedHas(table, rows[..n]);
      forall h | HasResource(rows[..n], h) ensures HasResource(rows, h) {
        var i :| 0 <= i < n && rows[..n][i].hash == h;
        assert rows[i].hash == h;
      }
      forall h | HasResource(rows, h) && h != rows[n].hash ensures HasResource(rows[..n], h) {
        var i :| 0 <= i < |rows| && rows[i].hash == h;
        assert rows[..n][i].hash == h;
      }
    }
  }

  lemma {:induction false} SeriesMergedHas(table: map<Hash, Series>, rows: seq<SeriesRow>, now: Time)
    ensures forall k :: k in table ==>
      k in SeriesMerged(table, rows, now) && SeriesMerged(table, rows, now)[k].resourceHash == table[k].resourceHash
    ensures forall k :: HasSeries(rows, k) ==> k in SeriesMerged(table, rows, now)
    ensures forall k :: k in SeriesMerged(table, rows, now) && k !in table ==>
      exists i :: 0 <= i < |rows| && rows[i].series.resourceHash == SeriesMerged(table, rows, now)[k].resourceHash
  {
    if rows != [] {
      var n := |rows| - 1;
      SeriesMergedHas(table, rows[..n], now);
      var before, after := SeriesMerged(table, rows[..n], now), SeriesMerged(table, rows, now);
      forall k | k in after && k !in table
        ensures exists i :: 0 <= i < |rows| && rows[i].series.resourceHash == after[k].resourceHash
      {
        if k in before {
          var i :| 0 <= i < n && rows[..n][i].series.resourceHash == before[k].resourceHash;
          assert rows[i].series.resourceHash == after[k].resourceHash;
        } else {
          assert rows[n].series.resourceHash == after[k].resourceHash;
        }
      }
      forall k | HasSeries(rows, k) && k != rows[n].key ensures HasSeries(rows[..n], k) {
        var i :| 0 <= i < |rows| && rows[i].key == k;
        assert rows[..n][i].key == k;
      }
    }
  }

  lemma {:induction false} LayoutsMergedHas(table: map<Hash, string>, rows: seq<LayoutRow>)
    ensures forall h :: h in table ==> h in LayoutsMerged(table, rows)
    ensures forall h :: HasLayout(rows, h) ==> h in LayoutsMerged(table, rows)
  {
    if rows != [] {
      var n := |rows| - 1;
      LayoutsMergedHas(table, rows[..n]);
      forall h | HasLayout(rows, h) && h != rows[n].hash ensures HasLayout(rows[..n], h) {
        var i :| 0 <= i < |rows| && rows[i].hash == h;
        assert rows[..n][i].hash == h;
      }
    }
  }

  // ---- A metric batch in one transaction ----

  function MetricsWritten(d: Tables, b: MetricBatch, now: Time): Tables {
    d.(resources := ResourcesUpserted(d.resources, b.resources),
       series := SeriesMerged(d.series, b.series, now),
       layouts := LayoutsMerged(d.layouts, b.layouts),
       points := d.points + b.points,
       exemplars := if b.points == [] then d.exemplars else d.exemplars + b.exemplars)
  }

  lemma MetricsKeepReferences(d: Tables, b: MetricBatch, now: Time)
    requires Referenced(d) && MetricBatchOk(b)
    ensures Referenced(MetricsWritten(d, b, now))
  {
    ResourcesUpsertedHas(d.resources, b.resources);
    SeriesMergedHas(d.series, b.series, now);
    LayoutsMergedHas(d.layouts, b.layouts);
    var after := MetricsWritten(d, b, now);
    forall k | k in after.series ensures after.series[k].resourceHash in after.resources {
      if k !in d.series {
        var i :| 0 <= i < |b.series| && b.series[i].series.resourceHash == after.series[k].resourceHash;
      }
    }
    forall e | e in after.exemplars ensures exists p :: p in after.points && p.id == e.pointId {
      if e in d.exemplars {
        var p :| p in d.points && p.id == e.pointId;
        assert p in after.points;
      } else {
        var i :| 0 <= i < |b.exemplars| && b.exemplars[i] == e;
        var j :| 0 <= j < |b.points| && b.points[j].id == e.pointId;
        assert b.points[j] in after.points;
      }
    }
  }

  // ---- What an upsert and a metric message leave in the tables ----

  /** Row `i` is the first with this hash. */
  predicate IsFirst(hashes: seq<Hash>, i: nat, h: Hash) {
    i < |hashes| && hashes[i] == h && forall j :: 0 <= j < i ==> hashes[j] != h
  }

  /** Row `i` is the last with this hash. */
  predicate IsLast(hashes: seq<Hash>, i: nat, h: Hash) {
    i < |hashes| && hashes[i] == h && forall j :: i < j < |hashes| ==> hashes[j] != h
  }

  function ResourceHashes(rows: seq<ResourceRow>): (hashes: seq<Hash>)
    ensures |hashes| == |rows| && forall i :: 0 <= i < |rows| ==> hashes[i] == rows[i].hash
  {
    seq(|rows|, i requires 0 <= i < |rows| => rows[i].hash)
  }

  function SeriesKeys(rows: seq<SeriesRow>): (hashes: seq<Hash>)
    ensures |hashes| == |rows| && forall i :: 0 <= i < |rows| ==> hashes[i] == rows[i].key
  {
    seq(|rows|, i requires 0 <= i < |rows| => rows[i].key)
  }

  function LayoutHashes(rows: seq<LayoutRow>): (hashes: seq<Hash>)
    ensures |hashes| == |rows| && forall i :: 0 <= i < |rows| ==> hashes[i] == rows[i].hash
  {
    seq(|rows|, i requires 0 <= i < |rows| => rows[i].hash)
  }

  /** A stored resource stays as it is; a new one is as its first row has it; and there are no others. */
  ghost predicate ResourceIs(before: map<Hash, Resource>, rows: seq<ResourceRow>, h: Hash, after: map<Hash, Resource>) {
    && (h in before ==> h in after && after[h] == before[h])
    && (h !in before ==> (h in after <==> h in ResourceHashes(rows)))
    && (h !in before ==> forall i: nat :: IsFirst(ResourceHashes(rows), i, h) ==>
          after[h].serviceName == rows[i].resource.serviceName && after[h].detail == rows[i].resource.detail)
  }

  ghost predicate AddsResources(before: map<Hash, Resource>, rows: seq<ResourceRow>, after: map<Hash, Resource>) {
    forall h :: ResourceIs(before, rows, h, after)
  }

  ghost predicate LayoutIs(before: map<Hash, string>, rows: seq<LayoutRow>, h: Hash, after: map<Hash, string>) {
    && (h in before ==> h in after && after[h] == before[h])
    && (h !in before ==> (h in after <==> h in LayoutHashes(rows)))
    && (h !in before ==> forall i: nat :: IsFirst(LayoutHashes(rows), i, h) ==> after[h] == rows[i].layout)
  }

  ghost predicate AddsLayouts(before: map<Hash, string>, rows: seq<LayoutRow>, after: map<Hash, string>) {
    forall h :: LayoutIs(before, rows, h, after)
  }

  /** The columns of a series that its key stands for. */
  predicate SameSeries(a: Series, b: Series) {
    && a.serviceName == b.serviceName && a.metricName == b.metricName && a.resourceHash == b.resourceHash
    && a.detail == b.detail
  }

  /**
   * A series without a row stays as it is. A known one keeps what its key stands for and when it was first seen; a new
   * one has the former from its first row and was first seen now. Both take the last row's description and were last
   * seen now.
   */
  ghost predicate SeriesIs(before: map<Hash, Series>, rows: seq<SeriesRow>, now: Time, k: Hash,
                          after: map<Hash, Series>) {
    var keys := SeriesKeys(rows);
    && (k in after <==> k in before || k in keys)
    && (k in before ==> SameSeries(after[k], before[k]) && after[k].firstSeen == before[k].firstSeen)
    && (k in before && k !in keys ==> after[k] == before[k])
    && (k !in before ==> forall i: nat :: IsFirst(keys, i, k) ==> SameSeries(after[k], rows[i].series))
    && (k !in before && k in keys ==> after[k].firstSeen == now)
    && (k in keys ==> after[k].lastSeen == now)
    && (k in keys ==> forall i: nat :: IsLast(keys, i, k) ==> after[k].description == rows[i].series.description)
  }

  ghost predicate MergesSeries(before: map<Hash, Series>, rows: seq<SeriesRow>, now: Time, after: map<Hash, Series>) {
    forall k :: SeriesIs(before, rows, now, k, after)
  }

  /** A committed metric message: its facts appended, its dimension rows merged, everything else as it was. */
  ghost predicate StoresMetrics(d: Tables, b: MetricBatch, now: Time, after: Tables) {
    && after.points == d.points + b.points
    && after.exemplars == d.exemplars + (if b.points == [] then [] else b.exemplars)
    && AddsResources(d.resources, b.resources, after.resources)
    && MergesSeries(d.series, b.series, now, after.series)
    && AddsLayouts(d.layouts, b.layouts, after.layouts)
    && after.spans == d.spans && after.links == d.links && after.summaries == d.summaries && after.dropped == d.dropped
    && after.logs == d.logs
  }

  /** What one more row changes about first and last rows. */
  lemma OneMoreHash(hashes: seq<Hash>, last: Hash, h: Hash)
    ensures h in hashes + [last] <==> h in hashes || h == last
    ensures forall i: nat :: IsFirst(hashes + [last], i, h) <==>
      IsFirst(hashes, i, h) || (i == |hashes| && h == last && h !in hashes)
    ensures forall i: nat ::
      IsLast(hashes + [last], i, h) <==> if h == last then i == |hashes| else IsLast(hashes, i, h)
  {
    var more := hashes + [last];
    assert forall i :: 0 <= i < |hashes| ==> more[i] == hashes[i];
    forall i: nat
      ensures IsFirst(more, i, h) <==> IsFirst(hashes, i, h) || (i == |hashes| && h == last && h !in hashes)
    {
    }
    forall i: nat ensures IsLast(more, i, h) <==> if h == last then i == |hashes| else IsLast(hashes, i, h) {
      if i < |hashes| { assert more[|hashes|] == last; }
    }
  }

  lemma {:induction false} UpsertedResourceIs(table: map<Hash, Resource>, rows: seq<ResourceRow>, h: Hash)
    ensures ResourceIs(table, rows, h, ResourcesUpserted(table, rows))
  {
    hide IsFirst;
    if rows == [] {
      NoFirst(h);
      assert ResourceHashes(rows) == [];
    } else {
      var n := |rows| - 1;
      UpsertedResourceIs(table, rows[..n], h);
      OneMoreHash(ResourceHashes(rows[..n]), rows[n].hash, h);
      assert ResourceHashes(rows) == ResourceHashes(rows[..n]) + [rows[n].hash];
      FirstIsRow(ResourceHashes(rows[..n]), h);
      assert forall i :: 0 <= i < n ==> rows[..n][i] == rows[i];
    }
  }

  lemma NoFirst(h: Hash)
    ensures forall i: nat :: !IsFirst([], i, h) && !IsLast([], i, h)
  {
  }

  lemma FirstIsRow(hashes: seq<Hash>, h: Hash)
    ensures forall i: nat :: IsFirst(hashes, i, h) || IsLast(hashes, i, h) ==> i < |hashes| && h in hashes
  {
  }

  lemma {:induction false} MergedLayoutIs(table: map<Hash, string>, rows: seq<LayoutRow>, h: Hash)
    ensures LayoutIs(table, rows, h, LayoutsMerged(table, rows))
  {
    hide IsFirst;
    if rows == [] {
      NoFirst(h);
      assert LayoutHashes(rows) == [];
    } else {
      var n := |rows| - 1;
      MergedLayoutIs(table, rows[..n], h);
      OneMoreHash(LayoutHashes(rows[..n]), rows[n].hash, h);
      assert LayoutHashes(rows) == LayoutHashes(rows[..n]) + [rows[n].hash];
      FirstIsRow(LayoutHashes(rows[..n]), h);
      assert forall i :: 0 <= i < n ==> rows[..n][i] == rows[i];
    }
  }

  lemma {:induction false} MergedSeriesIs(table: map<Hash, Series>, rows: seq<SeriesRow>, now: Time, k: Hash)
    ensures SeriesIs(table, rows, now, k, SeriesMerged(table, rows, now))
  {
    hide IsFirst, IsLast;
    if rows == [] {
      NoFirst(k);
      assert SeriesKeys(rows) == [];
    } else {
      var n := |rows| - 1;
      MergedSeriesIs(table, rows[..n], now, k);
      OneMoreHash(SeriesKeys(rows[..n]), rows[n].key, k);
      assert SeriesKeys(rows) == SeriesKeys(rows[..n]) + [rows[n].key];
      FirstIsRow(SeriesKeys(rows[..n]), k);
      assert forall i :: 0 <= i < n ==> rows[..n][i] == rows[i];
    }
  }

  lemma UpsertAddsResources(table: map<Hash, Resource>, rows: seq<ResourceRow>)
    ensures AddsResources(table, rows, ResourcesUpserted(table, rows))
  {
    hide ResourceIs;
    forall h ensures ResourceIs(table, rows, h, ResourcesUpserted(table, rows)) {
      UpsertedResourceIs(table, rows, h);
    }
  }

  lemma MergeAddsLayouts(table: map<Hash, string>, rows: seq<LayoutRow>)
    ensures AddsLayouts(table, rows, LayoutsMerged(table, rows))
  {
    hide LayoutIs;
    forall h ensures LayoutIs(table, rows, h, LayoutsMerged(table, rows)) { MergedLayoutIs(table, rows, h); }
  }

  lemma MergeMergesSeries(table: map<Hash, Series>, rows: seq<SeriesRow>, now: Time)
    ensures MergesSeries(table, rows, now, SeriesMerged(table, rows, now))
  {
    hide SeriesIs;
    forall k ensures SeriesIs(table, rows, now, k, SeriesMerged(table, rows, now)) {
      MergedSeriesIs(table, rows, now, k);
    }
  }

  lemma MetricsAreStored(d: Tables, b: MetricBatch, now: Time)
    ensures StoresMetrics(d, b, now, MetricsWritten(d, b, now))
  {
    UpsertAddsResources(d.resources, b.resources);
    MergeMergesSeries(d.series, b.series, now);
    MergeAddsLayouts(d.layouts, b.layouts);
    hide AddsResources, MergesSeries, AddsLayouts;
    assert d.exemplars + [] == d.exemplars;
  }

  // ---- Pruning ----

  function UsedSeries(points: seq<Point>): set<Hash> { set p | p in points :: p.seriesKey }

  function UsedLayouts(points: seq<Point>): set<Hash> {
    set p | p in points && p.layoutHash.Some? :: p.layoutHash.value
  }

  /** The hashes pruning keeps; trace_summaries plays no part in it. */
  function UsedResources(spans: seq<Span>, logs: seq<Log>, series: map<Hash, Series>): set<Hash> {
    (set s | s in spans :: s.resourceHash) + (set l | l in logs :: l.resourceHash) +
    (set k | k in series :: series[k].resourceHash)
  }

  function Restricted<V>(m: map<Hash, V>, keys: set<Hash>): map<Hash, V> { map k | k in m && k in keys :: m[k] }

  /** Series first, so that a series orphaned now releases its resource now; `steps` statements succeed. */
  function Pruned(d: Tables, steps: nat): Tables {
    var s := if steps >= 1 then d.(series := Restricted(d.series, UsedSeries(d.points))) else d;
    var l := if steps >= 2 then s.(layouts := Restricted(s.layouts, UsedLayouts(s.points))) else s;
    if steps >= 3 then l.(resources := Restricted(l.resources, UsedResources(l.spans, l.logs, l.series))) else l
  }

  lemma PruneKeepsReferences(d: Tables, steps: nat)
    requires Referenced(d)
    ensures Referenced(Pruned(d, steps))
  {
  }

  ghost predicate HasPointOfSeries(points: seq<Point>, k: Hash) { exists p :: p in points && p.seriesKey == k }

  ghost predicate HasPointOfLayout(points: seq<Point>, h: Hash) { exists p :: p in points && p.layoutHash == Some(h) }

  ghost predicate NamesResource(d: Tables, h: Hash) {
    || (exists s :: s in d.spans && s.resourceHash == h)
    || (exists l :: l in d.logs && l.resourceHash == h)
    || (exists k :: k in d.series && d.series[k].resourceHash == h)
  }

  /** What each statement of a prune leaves: series with points, layouts with points, resources something names. */
  ghost predicate Prunes(d: Tables, steps: nat, after: Tables) {
    && (forall k :: k in after.series <==> k in d.series && (steps >= 1 ==> HasPointOfSeries(d.points, k)))
    && (forall k :: k in after.series ==> after.series[k] == d.series[k])
    && (forall h :: h in after.layouts <==> h in d.layouts && (steps >= 2 ==> HasPointOfLayout(d.points, h)))
    && (forall h :: h in after.layouts ==> after.layouts[h] == d.layouts[h])
    && (forall h :: h in after.resources <==> h in d.resources && (steps >= 3 ==> NamesResource(after, h)))
    && (forall h :: h in after.resources ==> after.resources[h] == d.resources[h])
    && after.spans == d.spans && after.links == d.links && after.summaries == d.summaries && after.dropped == d.dropped
    && after.points == d.points && after.exemplars == d.exemplars && after.logs == d.logs
  }

  lemma PrunedAsUsed(d: Tables, steps: nat)
    ensures Prunes(d, steps, Pruned(d, steps))
  {
    var after := Pruned(d, steps);
    PrunedTables(d, steps);
    hide Pruned, Restricted, UsedSeries, UsedLayouts, UsedResources, HasPointOfSeries, HasPointOfLayout, NamesResource;
    UsedAreUsed(after);
    if steps >= 1 { RestrictedHas(d.series, UsedSeries(d.points)); }
    if steps >= 2 { RestrictedHas(d.layouts, UsedLayouts(d.points)); }
    if steps >= 3 { RestrictedHas(d.resources, UsedResources(d.spans, d.logs, after.series)); }
  }

  lemma PrunedTables(d: Tables, steps: nat)
    ensures var after := Pruned(d, steps);
      && after == d.(series := after.series, layouts := after.layouts, resources := after.resources)
      && after.series == (if steps >= 1 then Restricted(d.series, UsedSeries(d.points)) else d.series)
      && after.layouts == (if steps >= 2 then Restricted(d.layouts, UsedLayouts(d.points)) else d.layouts)
      && after.resources ==
         if steps >= 3 then Restricted(d.resources, UsedResources(d.spans, d.logs, after.series)) else d.resources
  {
    hide Restricted, UsedSeries, UsedLayouts, UsedResources;
  }

  lemma RestrictedHas<V(!new)>(m: map<Hash, V>, keys: set<Hash>)
    ensures forall k :: k in Restricted(m, keys) <==> k in m && k in keys
    ensures forall k :: k in Restricted(m, keys) ==> Restricted(m, keys)[k] == m[k]
  {
  }

  lemma UsedAreUsed(d: Tables)
    ensures forall k :: k in UsedSeries(d.points) <==> HasPointOfSeries(d.points, k)
    ensures forall h :: h in UsedLayouts(d.points) <==> HasPointOfLayout(d.points, h)
    ensures forall h :: h in UsedResources(d.spans, d.logs, d.series) <==> NamesResource(d, h)
  {
  }

  /** After a full prune every remaining dimension row is in use. */
  lemma PruneLeavesNoOrphans(d: Tables)
    ensures forall k :: k in Pruned(d, 3).series ==> exists p :: p in d.points && p.seriesKey == k
    ensures forall h :: h in Pruned(d, 3).layouts ==> exists p :: p in d.points && p.layoutHash == Some(h)
    ensures forall h :: h in Pruned(d, 3).resources ==>
      (exists s :: s in d.spans && s.resourceHash == h) || (exists l :: l in d.logs && l.resourceHash == h) ||
      (exists k :: k in Pruned(d, 3).series && Pruned(d, 3).series[k].resourceHash == h)
  {
  }

  // ---- Deleting old facts ----

  function PointNotBefore(cutoff: Time): Point -> bool { (p: Point) => p.ts >= cutoff }
  function LogNotBefore(cutoff: Time): Log -> bool { (l: Log) => l.ts >= cutoff }

  function SweptPointIds(points: seq<Point>, cutoff: Time): set<string> {
    set p | p in points && p.ts < cutoff :: p.id
  }

  function NotOfPoints(ids: set<string>): Exemplar -> bool { (e: Exemplar) => e.pointId !in ids }

  /** The effect of the sweep transaction on every table. */
  ghost predicate FactsDeleted(d: Tables, cutoff: Time, after: Tables) {
    && Swept(d, cutoff, after)
    && after.points == Filter(d.points, PointNotBefore(cutoff))
    && after.exemplars == Filter(d.exemplars, NotOfPoints(SweptPointIds(d.points, cutoff)))
    && after.logs == Filter(d.logs, LogNotBefore(cutoff))
    && after.dropped == (map t | t in d.dropped && d.dropped[t].lastSeen >= cutoff :: d.dropped[t])
    && after.resources == d.resources && after.series == d.series && after.layouts == d.layouts
  }

  ghost predicate HasOldSpan(d: Tables, cutoff: Time, l: SpanLink) {
    exists s :: s in d.spans && s.startTs < cutoff && s.traceId == l.sourceTraceId && s.spanId == l.sourceSpanId
  }

  ghost predicate HasOldPoint(d: Tables, cutoff: Time, e: Exemplar) {
    exists p :: p in d.points && p.ts < cutoff && p.id == e.pointId
  }

  /** Row by row: facts before the cutoff go, with the links and exemplars of those spans and points, and no others. */
  ghost predicate KeepsSince(d: Tables, cutoff: Time, after: Tables) {
    && (forall s :: multiset(after.spans)[s] == if s.startTs >= cutoff then multiset(d.spans)[s] else 0)
    && (forall p :: multiset(after.points)[p] == if p.ts >= cutoff then multiset(d.points)[p] else 0)
    && (forall l :: multiset(after.logs)[l] == if l.ts >= cutoff then multiset(d.logs)[l] else 0)
    && (forall l :: multiset(after.links)[l] == if HasOldSpan(d, cutoff, l) then 0 else multiset(d.links)[l])
    && (forall e :: multiset(after.exemplars)[e] == if HasOldPoint(d, cutoff, e) then 0 else multiset(d.exemplars)[e])
    && (forall t :: t in after.dropped <==> t in d.dropped && d.dropped[t].lastSeen >= cutoff)
    && (forall t :: t in after.dropped ==> after.dropped[t] == d.dropped[t])
    && after.resources == d.resources && after.series == d.series && after.layouts == d.layouts
  }

  lemma OldExemplars(d: Tables, cutoff: Time, e: Exemplar)
    ensures NotOfPoints(SweptPointIds(d.points, cutoff))(e) <==> !HasOldPoint(d, cutoff, e)
  {
  }

  lemma OldLinks(d: Tables, cutoff: Time, l: SpanLink)
    ensures NotFromSpans(SweptKeys(d.spans, cutoff))(l) <==> !HasOldSpan(d, cutoff, l)
  {
    if HasOldSpan(d, cutoff, l) {
      var s :| s in d.spans && s.startTs < cutoff && s.traceId == l.sourceTraceId && s.spanId == l.sourceSpanId;
      assert s.Key() == (l.sourceTraceId, l.sourceSpanId);
    }
  }

  lemma DeleteKeepsSince(d: Tables, cutoff: Time, after: Tables)
    requires FactsDeleted(d, cutoff, after)
    ensures KeepsSince(d, cutoff, after)
  {
    hide Filter, HasOldSpan, HasOldPoint, RebuiltRow, SweptKeys, SweptPointIds, NotFromSpans, NotOfPoints;
    forall s ensures multiset(after.spans)[s] == if s.startTs >= cutoff then multiset(d.spans)[s] else 0 {
      FilterCounts(d.spans, NotBefore(cutoff), s);
    }
    forall p ensures multiset(after.points)[p] == if p.ts >= cutoff then multiset(d.points)[p] else 0 {
      FilterCounts(d.points, PointNotBefore(cutoff), p);
    }
    forall l ensures multiset(after.logs)[l] == if l.ts >= cutoff then multiset(d.logs)[l] else 0 {
      FilterCounts(d.logs, LogNotBefore(cutoff), l);
    }
    forall l ensures multiset(after.links)[l] == if HasOldSpan(d, cutoff, l) then 0 else multiset(d.links)[l] {
      OldLinks(d, cutoff, l);
      FilterCounts(d.links, NotFromSpans(SweptKeys(d.spans, cutoff)), l);
    }
    forall e
      ensures multiset(after.exemplars)[e] == if HasOldPoint(d, cutoff, e) then 0 else multiset(d.exemplars)[e]
    {
      OldExemplars(d, cutoff, e);
      FilterCounts(d.exemplars, NotOfPoints(SweptPointIds(d.points, cutoff)), e);
    }
  }

  lemma DeleteKeepsReferences(d: Tables, cutoff: Time, after: Tables)
    requires Referenced(d) && FactsDeleted(d, cutoff, after)
    ensures Referenced(after)
  {
    FilterHas(d.spans, NotBefore(cutoff));
    FilterHas(d.points, PointNotBefore(cutoff));
    FilterHas(d.exemplars, NotOfPoints(SweptPointIds(d.points, cutoff)));
    FilterHas(d.logs, LogNotBefore(cutoff));
    forall e | e in after.exemplars ensures exists p :: p in after.points && p.id == e.pointId {
      var p :| p in d.points && p.id == e.pointId;
      assert p in after.points;
    }
  }

  function FactCount(d: Tables): nat { |d.spans| + |d.points| + |d.logs| }

  function FactTimes(d: Tables): set<Time> {
    (set s | s in d.spans :: s.startTs) + (set p | p in d.points :: p.ts) + (set l | l in d.logs :: l.ts)
  }

  lemma {:induction false} FilterDrops<T(!new)>(rows: seq<T>, keep: T -> bool, i: nat)
    requires i < |rows| && !keep(rows[i])
    ensures |Filter(rows, keep)| < |rows|
  {
    var n := |rows| - 1;
    if i < n { FilterDrops(rows[..n], keep, i); }
  }

  /** Exactly the facts before the cutoff are gone; dimension rows may be too. */
  ghost predicate IsTrimmed(d: Tables, cutoff: Time, after: Tables) {
    && after.spans == Filter(d.spans, NotBefore(cutoff))
    && after.points == Filter(d.points, PointNotBefore(cutoff))
    && after.logs == Filter(d.logs, LogNotBefore(cutoff))
  }

  /** A cutoff later than some fact deletes at least one row. */
  lemma DeleteRemovesSomething(d: Tables, cutoff: Time, after: Tables, t: Time)
    requires IsTrimmed(d, cutoff, after) && t in FactTimes(d) && t < cutoff
    ensures FactCount(after) < FactCount(d)
  {
    if s :| s in d.spans && s.startTs == t {
      var i :| 0 <= i < |d.spans| && d.spans[i] == s;
      FilterDrops(d.spans, NotBefore(cutoff), i);
    } else if p :| p in d.points && p.ts == t {
      var i :| 0 <= i < |d.points| && d.points[i] == p;
      FilterDrops(d.points, PointNotBefore(cutoff), i);
    } else {
      var l :| l in d.logs && l.ts == t;
      var i :| 0 <= i < |d.logs| && d.logs[i] == l;
      FilterDrops(d.logs, LogNotBefore(cutoff), i);
    }
  }

  // ---- Trace and log writes ----

  lemma TraceWriteKeepsReferences(d: Tables, rows: seq<SpanRow>, at: Time, over: set<string>, after: Tables)
    requires Referenced(d) && TraceWritten(d, rows, at, over, after)
    requires forall i :: 0 <= i < |rows| ==> rows[i].resourceHash in d.resources
    requires after.resources == d.resources && after.series == d.series && after.layouts == d.layouts
    requires after.points == d.points && after.exemplars == d.exemplars && after.logs == d.logs
    ensures Referenced(after)
  {
    FilterHas(SpansAppended(d, rows, at), NotInTraces(over));
    forall s | s in after.spans ensures s.resourceHash in d.resources {
      if s !in d.spans {
        var i :| 0 <= i < |rows| && Stored(rows[i], at) == s;
      }
    }
  }
}
