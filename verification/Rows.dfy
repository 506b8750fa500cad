// Row types shared by the ingest path and the tables. Times are nanosecond counts; hashes are opaque ids.
module Rows {
  import opened Filters
  import opened Order

  type Time = int
  type Hash = nat

  datatype MetricType = Gauge | Sum | Histogram | ExponentialHistogram | SummaryType

  /** One recorded span link; `detail` stands for trace state, flags, attributes and dropped count. */
  datatype Link = Link(traceId: string, spanId: string, detail: string)

  /** A converted span, as it arrives in a batch; `detail` stands for the columns nothing here reads. */
  datatype SpanRow = SpanRow(
    traceId: string, spanId: string, parentSpanId: string, name: string, kind: string,
    startTs: Time, endTs: Time, statusCode: string, links: seq<Link>, resourceHash: Hash, detail: string)

  /** A row of the spans table. */
  datatype Span = Span(
    traceId: string, spanId: string, parentSpanId: string, name: string, kind: string,
    startTs: Time, endTs: Time, statusCode: string, linkCount: nat, resourceHash: Hash, detail: string,
    ingestedAt: Time)
  {
    function Duration(): int { endTs - startTs }
    function Key(): (string, string) { (traceId, spanId) }
  }

  /** The row the appender writes for a converted span. */
  function Stored(row: SpanRow, ingestedAt: Time): Span {
    Span(row.traceId, row.spanId, row.parentSpanId, row.name, row.kind, row.startTs, row.endTs,
         row.statusCode, |row.links|, row.resourceHash, row.detail, ingestedAt)
  }

  /** Column by column, what the spans table holds of a converted span. */
  predicate Records(s: Span, row: SpanRow, at: Time) {
    && s.traceId == row.traceId && s.spanId == row.spanId && s.parentSpanId == row.parentSpanId
    && s.name == row.name && s.kind == row.kind && s.startTs == row.startTs && s.endTs == row.endTs
    && s.statusCode == row.statusCode && s.linkCount == |row.links| && s.resourceHash == row.resourceHash
    && s.detail == row.detail && s.ingestedAt == at
  }

  /** A row of the span_links table. */
  datatype SpanLink = SpanLink(sourceTraceId: string, sourceSpanId: string, ordinal: int, link: Link)

  /** And the span_links table of its `k`-th link. */
  predicate RecordsLink(l: SpanLink, row: SpanRow, k: nat)
    requires k < |row.links|
  {
    && l.sourceTraceId == row.traceId && l.sourceSpanId == row.spanId && l.ordinal == k
    && l.link.traceId == row.links[k].traceId && l.link.spanId == row.links[k].spanId
    && l.link.detail == row.links[k].detail
  }

  ghost predicate UniqueKeys(spans: seq<Span>) {
    forall i, j :: 0 <= i < j < |spans| ==> spans[i].Key() != spans[j].Key()
  }

  function InTrace(t: string): Span -> bool { (s: Span) => s.traceId == t }
  function RowInTrace(t: string): SpanRow -> bool { (r: SpanRow) => r.traceId == t }

  /** The rows of one trace, in table order. */
  function SpansOf(spans: seq<Span>, traceId: string): seq<Span> { Filter(spans, InTrace(traceId)) }

  /** The batch rows of one trace, in batch order. */
  function RowsOf(rows: seq<SpanRow>, traceId: string): seq<SpanRow> { Filter(rows, RowInTrace(traceId)) }

  lemma {:induction false} FilterUnique(spans: seq<Span>, keep: Span -> bool)
    requires UniqueKeys(spans)
    ensures UniqueKeys(Filter(spans, keep))
  {
    if spans != [] {
      var n := |spans| - 1;
      FilterUnique(spans[..n], keep);
      var rest := Filter(spans[..n], keep);
      FilterHas(spans[..n], keep);
      forall i | 0 <= i < |rest|
        ensures rest[i].Key() != spans[n].Key()
      {
        assert rest[i] in rest;
        var k :| 0 <= k < n && spans[k] == rest[i];
      }
    }
  }

  /** What the appender writes for a batch. */
  function StoredAll(rows: seq<SpanRow>, ingestedAt: Time): (r: seq<Span>)
    ensures |r| == |rows|
    ensures forall i :: 0 <= i < |rows| ==> r[i] == Stored(rows[i], ingestedAt)
  {
    seq(|rows|, i requires 0 <= i < |rows| => Stored(rows[i], ingestedAt))
  }

  lemma {:induction false} StoredRowsOf(rows: seq<SpanRow>, ingestedAt: Time, traceId: string)
    ensures SpansOf(StoredAll(rows, ingestedAt), traceId) == StoredAll(RowsOf(rows, traceId), ingestedAt)
  {
    if rows != [] {
      var n := |rows| - 1;
      StoredRowsOf(rows[..n], ingestedAt, traceId);
      assert StoredAll(rows, ingestedAt)[..n] == StoredAll(rows[..n], ingestedAt);
    }
  }
}
