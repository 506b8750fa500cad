// The tables the writer owns, and what holds of them between any two writer messages.
module Database {
  import opened Filters
  import opened Order
  import opened Rows
  import opened TraceSummary

  const MAX_SPANS_PER_TRACE: nat := 10_000

  datatype Tombstone = Tombstone(lastSeen: Time, spanCount: nat)
  datatype Resource = Resource(serviceName: string, detail: string)
  datatype Series = Series(serviceName: string, metricName: string, description: string, resourceHash: Hash,
                           detail: string, firstSeen: Time, lastSeen: Time)
  datatype Point = Point(id: string, seriesKey: Hash, ts: Time, layoutHash: Option<Hash>, detail: string)
  datatype Exemplar = Exemplar(id: string, pointId: string, detail: string)
  datatype Log = Log(id: string, ts: Time, resourceHash: Hash, detail: string)

  datatype ResourceRow = ResourceRow(hash: Hash, resource: Resource)
  datatype SeriesRow = SeriesRow(key: Hash, series: Series)
  datatype LayoutRow = LayoutRow(hash: Hash, layout: string)

  /** Converted batches, as they reach the writer. */
  datatype TraceBatch = TraceBatch(resources: seq<ResourceRow>, spans: seq<SpanRow>)
  datatype MetricBatch = MetricBatch(resources: seq<ResourceRow>, series: seq<SeriesRow>, layouts: seq<LayoutRow>,
                                     points: seq<Point>, exemplars: seq<Exemplar>)
  datatype LogBatch = LogBatch(resources: seq<ResourceRow>, logs: seq<Log>)

  /** Tables with a primary key are maps; the others are sequences of rows. */
  datatype Tables = Tables(
    spans: seq<Span>, links: seq<SpanLink>, summaries: map<string, Summary>, dropped: map<string, Tombstone>,
    resources: map<Hash, Resource>, series: map<Hash, Series>, layouts: map<Hash, string>,
    points: seq<Point>, exemplars: seq<Exemplar>, logs: seq<Log>)

  // ---- What each DELETE keeps ----

  function NotInTraces(traces: set<string>): Span -> bool { (s: Span) => s.traceId !in traces }
  function NotBefore(cutoff: Time): Span -> bool { (s: Span) => s.startTs >= cutoff }
  function FromSpan(key: (string, string)): SpanLink -> bool {
    (l: SpanLink) => (l.sourceTraceId, l.sourceSpanId) == key
  }
  function NotFromTraces(traces: set<string>): SpanLink -> bool { (l: SpanLink) => l.sourceTraceId !in traces }
  function NotFromSpans(keys: set<(string, string)>): SpanLink -> bool {
    (l: SpanLink) => (l.sourceTraceId, l.sourceSpanId) !in keys
  }

  /** The stored links of one span, in table order. */
  function LinksOf(links: seq<SpanLink>, key: (string, string)): seq<SpanLink> { Filter(links, FromSpan(key)) }

  function KeysOf(spans: seq<Span>): (keys: set<(string, string)>)
    ensures forall k :: k in keys <==> exists s :: s in spans && s.Key() == k
  {
    set s | s in spans :: s.Key()
  }

  // ---- The invariants of the trace tables ----

  function FindSummary(summaries: map<string, Summary>, t: string): Option<Summary> {
    if t in summaries then Some(summaries[t]) else None
  }

  /** A trace has a summary exactly when it has spans, and the summary is their full aggregation. */
  ghost predicate SummaryExact(spans: seq<Span>, summaries: map<string, Summary>, t: string) {
    IsSummaryOf(SpansOf(spans, t), FindSummary(summaries, t), t)
  }

  /** No stored trace is over the limit, and a tombstoned trace stores nothing. */
  ghost predicate WithinLimit(spans: seq<Span>, dropped: map<string, Tombstone>, t: string) {
    |SpansOf(spans, t)| <= MAX_SPANS_PER_TRACE && (t in dropped ==> SpansOf(spans, t) == [])
  }

  /** The links of one span are numbered 0, 1, ... up to its link count. */
  ghost predicate Numbered(links: seq<SpanLink>, count: nat) {
    |links| == count && forall i :: 0 <= i < |links| ==> links[i].ordinal == i
  }

  ghost predicate LinksExact(spans: seq<Span>, links: seq<SpanLink>) {
    (forall s :: s in spans ==> Numbered(LinksOf(links, s.Key()), s.linkCount)) &&
    (forall l :: l in links ==> (l.sourceTraceId, l.sourceSpanId) in KeysOf(spans))
  }

  ghost predicate TracesConsistent(d: Tables) {
    && UniqueKeys(d.spans)
    && (forall t :: SummaryExact(d.spans, d.summaries, t))
    && (forall t :: WithinLimit(d.spans, d.dropped, t))
    && LinksExact(d.spans, d.links)
  }

  // ---- Every reference resolves ----

  ghost predicate Referenced(d: Tables) {
    && (forall s :: s in d.spans ==> s.resourceHash in d.resources)
    && (forall l :: l in d.logs ==> l.resourceHash in d.resources)
    && (forall k :: k in d.series ==> d.series[k].resourceHash in d.resources)
    && (forall p :: p in d.points ==> p.seriesKey in d.series)
    && (forall p :: p in d.points && p.layoutHash.Some? ==> p.layoutHash.value in d.layouts)
    && (forall e :: e in d.exemplars ==> exists p :: p in d.points && p.id == e.pointId)
  }

  ghost predicate Consistent(d: Tables) { TracesConsistent(d) && Referenced(d) }

  /** Pruning never reads trace_summaries: their hashes stay stored because each one belongs to a stored span. */
  lemma SummariesAreReferenced(d: Tables, t: string)
    requires Consistent(d) && t in d.summaries
    ensures d.summaries[t].earliestResourceHash in d.resources
    ensures d.summaries[t].root.Some? ==> d.summaries[t].root.value.resourceHash in d.resources
  {
    assert SummaryExact(d.spans, d.summaries, t);
    var rows, s := SpansOf(d.spans, t), d.summaries[t];
    FilterHas(d.spans, InTrace(t));
    var k :| IsFirstStarted(rows, k) && rows[k].spanId == s.earliestSpanId &&
      rows[k].resourceHash == s.earliestResourceHash;
    assert rows[k] in rows;
    if s.root.Some? {
      var r :| IsFirstRoot(rows, r) && RootRow(rows[r]) == s.root.value;
      assert rows[r] in rows;
    }
  }

  // ---- Appending new spans and links ----

  function LinksFor(row: SpanRow): (r: seq<SpanLink>)
    ensures |r| == |row.links|
    ensures forall i :: 0 <= i < |r| ==> r[i] == SpanLink(row.traceId, row.spanId, i, row.links[i])
  {
    seq(|row.links|, i requires 0 <= i < |row.links| => SpanLink(row.traceId, row.spanId, i, row.links[i]))
  }

  function AllLinks(rows: seq<SpanRow>): seq<SpanLink> {
    if rows == [] then [] else AllLinks(rows[..|rows| - 1]) + LinksFor(rows[|rows| - 1])
  }

  function RowKeys(rows: seq<SpanRow>): (keys: set<(string, string)>)
    ensures forall k :: k in keys <==> exists r :: r in rows && (r.traceId, r.spanId) == k
  {
    set r | r in rows :: (r.traceId, r.spanId)
  }

  lemma LinksForKey(row: SpanRow, key: (string, string))
    ensures LinksOf(LinksFor(row), key) == if key == (row.traceId, row.spanId) then LinksFor(row) else []
  {
    if key == (row.traceId, row.spanId) {
      FilterAll(LinksFor(row), FromSpan(key));
    } else {
      FilterNone(LinksFor(row), FromSpan(key));
    }
  }

  lemma {:induction false} AllLinksSources(rows: seq<SpanRow>)
    ensures forall l :: l in AllLinks(rows) ==> (l.sourceTraceId, l.sourceSpanId) in RowKeys(rows)
  {
    if rows != [] {
      var n := |rows| - 1;
      AllLinksSources(rows[..n]);
      assert rows == rows[..n] + [rows[n]];
      assert forall k :: k in RowKeys(rows[..n]) ==> k in RowKeys(rows);
    }
  }

  lemma AllLinksAbsent(rows: seq<SpanRow>, key: (string, string))
    requires key !in RowKeys(rows)
    ensures LinksOf(AllLinks(rows), key) == []
  {
    AllLinksSources(rows);
    var all := AllLinks(rows);
    assert forall i :: 0 <= i < |all| ==> all[i] in all;
    FilterNone(all, FromSpan(key));
  }

  ghost predicate UniqueRows(rows: seq<SpanRow>) {
    forall i, j :: 0 <= i < j < |rows| ==> (rows[i].traceId, rows[i].spanId) != (rows[j].traceId, rows[j].spanId)
  }

  /** The links appended for one row are exactly its own, whatever else the batch holds. */
  lemma {:induction false} AllLinksPresent(rows: seq<SpanRow>, k: nat)
    requires UniqueRows(rows) && k < |rows|
    ensures LinksOf(AllLinks(rows), (rows[k].traceId, rows[k].spanId)) == LinksFor(rows[k])
  {
    var n := |rows| - 1;
    var key := (rows[k].traceId, rows[k].spanId);
    FilterAppend(AllLinks(rows[..n]), LinksFor(rows[n]), FromSpan(key));
    LinksForKey(rows[n], key);
    if k == n {
      AllLinksAbsent(rows[..n], key);
    } else {
      AllLinksPresent(rows[..n], k);
      assert rows[..n][k] == rows[k];
    }
  }

  // ---- Batches carry the dimension rows their facts refer to ----

  ghost predicate HasResource(rows: seq<ResourceRow>, hash: Hash) {
    exists i :: 0 <= i < |rows| && rows[i].hash == hash
  }

  ghost predicate HasSeries(rows: seq<SeriesRow>, key: Hash) {
    exists i :: 0 <= i < |rows| && rows[i].key == key
  }

  ghost predicate HasLayout(rows: seq<LayoutRow>, hash: Hash) {
    exists i :: 0 <= i < |rows| && rows[i].hash == hash
  }

  ghost predicate HasPoint(points: seq<Point>, id: string) {
    exists j :: 0 <= j < |points| && points[j].id == id
  }

  ghost predicate TraceBatchOk(b: TraceBatch) {
    forall i :: 0 <= i < |b.spans| ==> HasResource(b.resources, b.spans[i].resourceHash)
  }

  ghost predicate LogBatchOk(b: LogBatch) {
    forall i :: 0 <= i < |b.logs| ==> HasResource(b.resources, b.logs[i].resourceHash)
  }

  ghost predicate MetricBatchOk(b: MetricBatch) {
    && (forall i :: 0 <= i < |b.series| ==> HasResource(b.resources, b.series[i].series.resourceHash))
    && (forall i :: 0 <= i < |b.points| ==> HasSeries(b.series, b.points[i].seriesKey))
    && (forall i :: 0 <= i < |b.points| && b.points[i].layoutHash.Some? ==>
          HasLayout(b.layouts, b.points[i].layoutHash.value))
    && (forall i :: 0 <= i < |b.exemplars| ==> HasPoint(b.points, b.exemplars[i].pointId))
  }
}
