// Conversion of OTLP payloads into row batches that carry every dimension row their facts refer to.
module Convert {
  import opened Database
  import opened Filters
  import opened Order
  import opened Rows

  /** The key under which each identity is stored; the byte streams behind it are not looked at here. */
  datatype Hashes = Hashes(resource: Resource -> Hash, series: SeriesIdentity -> Hash, layout: string -> Hash)

  /** `scope` stands for instrumentation scope, unit, temporality and monotonicity; `attributes` for the point's own. */
  datatype SeriesIdentity =
      SeriesIdentity(resource: Hash, name: string, kind: MetricType, scope: string, attributes: string)

  // ---- Payloads ----

  /** Spans grouped by scope; their own resource hash is not yet set. */
  datatype ResourceSpans = ResourceSpans(resource: Resource, scopes: seq<seq<SpanRow>>)

  datatype LogIn = LogIn(timestamp: Time, observed: Time, detail: string)
  datatype ResourceLogs = ResourceLogs(resource: Resource, scopes: seq<seq<LogIn>>)

  /** `layout` is the bucket layout of a histogram point. */
  datatype PointIn = PointIn(ts: Time, attributes: string, layout: string, detail: string, exemplars: seq<string>)

  datatype MetricIn = MetricIn(name: string, description: string, kind: MetricType, scope: string, points: seq<PointIn>)
  datatype ResourceMetrics = ResourceMetrics(resource: Resource, scopes: seq<seq<MetricIn>>)

  // ---- Dimension rows ----

  ghost predicate DistinctResources(rows: seq<ResourceRow>) {
    forall i, j :: 0 <= i < j < |rows| ==> rows[i].hash != rows[j].hash
  }

  ghost predicate DistinctSeries(rows: seq<SeriesRow>) {
    forall i, j :: 0 <= i < j < |rows| ==> rows[i].key != rows[j].key
  }

  ghost predicate DistinctLayouts(rows: seq<LayoutRow>) {
    forall i, j :: 0 <= i < j < |rows| ==> rows[i].hash != rows[j].hash
  }

  /** Appends a resource unless a row of its hash is there already. */
  function WithResource(rows: seq<ResourceRow>, r: Resource, h: Hashes): seq<ResourceRow> {
    if exists i :: 0 <= i < |rows| && rows[i].hash == h.resource(r) then rows
    else rows + [ResourceRow(h.resource(r), r)]
  }

  lemma WithResourceHas(rows: seq<ResourceRow>, r: Resource, h: Hashes)
    requires DistinctResources(rows)
    ensures var more := WithResource(rows, r, h);
      && DistinctResources(more) && HasResource(more, h.resource(r))
      && forall x :: HasResource(rows, x) ==> HasResource(more, x)
  {
    var more := WithResource(rows, r, h);
    if more != rows { assert more[|rows|].hash == h.resource(r); }
    forall x | HasResource(rows, x) ensures HasResource(more, x) {
      var i :| 0 <= i < |rows| && rows[i].hash == x;
      assert more[i].hash == x;
    }
  }

  /** The resources of a payload, one row a hash, in order of first appearance. */
  function ResourcesOf(resources: seq<Resource>, h: Hashes): seq<ResourceRow> {
    if resources == [] then []
    else WithResource(ResourcesOf(resources[..|resources| - 1], h), resources[|resources| - 1], h)
  }

  lemma {:induction false} ResourcesOfHas(resources: seq<Resource>, h: Hashes)
    ensures DistinctResources(ResourcesOf(resources, h))
    ensures forall i :: 0 <= i < |resources| ==> HasResource(ResourcesOf(resources, h), h.resource(resources[i]))
  {
    if resources != [] {
      var n := |resources| - 1;
      ResourcesOfHas(resources[..n], h);
      WithResourceHas(ResourcesOf(resources[..n], h), resources[n], h);
      forall i | 0 <= i < n ensures HasResource(ResourcesOf(resources, h), h.resource(resources[i])) {
        assert resources[..n][i] == resources[i];
      }
    }
  }

  /** Row `i` of a list of resources is the first that hashes to `hash`. */
  ghost predicate IsFirstResource(resources: seq<Resource>, h: Hashes, i: int, hash: Hash) {
    && 0 <= i < |resources| && h.resource(resources[i]) == hash
    && forall j :: 0 <= j < i ==> h.resource(resources[j]) != hash
  }

  /** The row is that of the first resource with its hash. */
  ghost predicate IsResourceRow(resources: seq<Resource>, h: Hashes, row: ResourceRow) {
    exists i :: IsFirstResource(resources, h, i, row.hash) && resources[i].serviceName == row.resource.serviceName &&
      resources[i].detail == row.resource.detail
  }

  /** One row for each hash among the resources. */
  ghost predicate HoldsResources(resources: seq<Resource>, h: Hashes, rows: seq<ResourceRow>) {
    && DistinctResources(rows)
    && (forall i :: 0 <= i < |resources| ==> HasResource(rows, h.resource(resources[i])))
    && (forall i :: 0 <= i < |rows| ==> IsResourceRow(resources, h, rows[i]))
  }

  lemma OneMoreResource(resources: seq<Resource>, r: Resource, h: Hashes, row: ResourceRow)
    ensures IsResourceRow(resources, h, row) ==> IsResourceRow(resources + [r], h, row)
    ensures row == ResourceRow(h.resource(r), r) && !IsResourceHash(resources, h, row.hash) ==>
      IsResourceRow(resources + [r], h, row)
  {
    var more := resources + [r];
    if IsResourceRow(resources, h, row) {
      var i :| IsFirstResource(resources, h, i, row.hash) && resources[i].serviceName == row.resource.serviceName &&
        resources[i].detail == row.resource.detail;
      assert more[i] == resources[i] && forall j :: 0 <= j < i ==> more[j] == resources[j];
      assert IsFirstResource(more, h, i, row.hash);
    }
    if row == ResourceRow(h.resource(r), r) && !IsResourceHash(resources, h, row.hash) {
      assert forall j :: 0 <= j < |resources| ==> more[j] == resources[j];
      assert IsFirstResource(more, h, |resources|, row.hash);
    }
  }

  ghost predicate IsResourceHash(resources: seq<Resource>, h: Hashes, hash: Hash) {
    exists i :: 0 <= i < |resources| && h.resource(resources[i]) == hash
  }

  lemma {:induction false} ResourcesAreHeld(resources: seq<Resource>, h: Hashes)
    ensures HoldsResources(resources, h, ResourcesOf(resources, h))
  {
    ResourcesOfHas(resources, h);
    if resources != [] {
      var n := |resources| - 1;
      var before, rows := ResourcesOf(resources[..n], h), ResourcesOf(resources, h);
      ResourcesAreHeld(resources[..n], h);
      assert resources == resources[..n] + [resources[n]];
      assert rows == WithResource(before, resources[n], h);
      hide IsResourceRow;
      forall i | 0 <= i < |rows| ensures IsResourceRow(resources, h, rows[i]) {
        OneMoreResource(resources[..n], resources[n], h, rows[i]);
        if i == |before| { assert forall j :: 0 <= j < n ==> HasResource(before, h.resource(resources[..n][j])); }
      }
    }
  }

  // ---- Where the rows of a payload go ----

  function TotalCount<T>(payload: seq<seq<seq<T>>>): nat {
    if payload == [] then 0 else TotalCount(payload[..|payload| - 1]) + Count(payload[|payload| - 1])
  }

  predicate IsIn<T>(payload: seq<seq<seq<T>>>, i: int, j: int, k: int) {
    0 <= i < |payload| && 0 <= j < |payload[i]| && 0 <= k < |payload[i][j]|
  }

  /** How many rows come before row `k` of scope `j` of resource `i`. */
  function Place<T>(payload: seq<seq<seq<T>>>, i: int, j: int, k: int): nat
    requires IsIn(payload, i, j, k)
  {
    TotalCount(payload[..i]) + Count(payload[i][..j]) + k
  }

  lemma SamePlace<T>(payload: seq<seq<seq<T>>>, i: int, j: int, k: int)
    requires IsIn(payload, i, j, k) && i < |payload| - 1
    ensures IsIn(payload[..|payload| - 1], i, j, k)
    ensures Place(payload[..|payload| - 1], i, j, k) == Place(payload, i, j, k)
  {
    assert payload[..|payload| - 1][..i] == payload[..i];
  }

  // ---- Traces ----

  function WithHash(spans: seq<SpanRow>, hash: Hash): seq<SpanRow> {
    seq(|spans|, i requires 0 <= i < |spans| => spans[i].(resourceHash := hash))
  }

  /** Every span of the payload in order, each under its own resource. */
  function SpansIn(td: seq<ResourceSpans>, h: Hashes): seq<SpanRow> {
    if td == [] then []
    else
      var n := |td| - 1;
      SpansIn(td[..n], h) + WithHash(Flat(td[n].scopes), h.resource(td[n].resource))
  }

  function ResourcesInTraces(td: seq<ResourceSpans>): seq<Resource> {
    seq(|td|, i requires 0 <= i < |td| => td[i].resource)
  }

  lemma {:induction false} SpansAreCovered(td: seq<ResourceSpans>, h: Hashes, rows: seq<ResourceRow>)
    requires forall i :: 0 <= i < |td| ==> HasResource(rows, h.resource(td[i].resource))
    ensures forall i :: 0 <= i < |SpansIn(td, h)| ==> HasResource(rows, SpansIn(td, h)[i].resourceHash)
  {
    hide HasResource;
    if td != [] {
      var n := |td| - 1;
      SpansAreCovered(td[..n], h, rows);
      var before, here := SpansIn(td[..n], h), WithHash(Flat(td[n].scopes), h.resource(td[n].resource));
      assert SpansIn(td, h) == before + here;
    }
  }

  function TraceScopes(td: seq<ResourceSpans>): seq<seq<seq<SpanRow>>> {
    seq(|td|, i requires 0 <= i < |td| => td[i].scopes)
  }

  /** The payload's span, column by column, under its own resource. */
  predicate IsSpanRow(row: SpanRow, span: SpanRow, hash: Hash) {
    && row.traceId == span.traceId && row.spanId == span.spanId && row.parentSpanId == span.parentSpanId
    && row.name == span.name && row.kind == span.kind && row.startTs == span.startTs && row.endTs == span.endTs
    && row.statusCode == span.statusCode && row.links == span.links && row.detail == span.detail
    && row.resourceHash == hash
  }

  /** Every span of the payload at its place, and no others. */
  ghost predicate HoldsSpans(td: seq<ResourceSpans>, h: Hashes, spans: seq<SpanRow>) {
    && |spans| == TotalCount(TraceScopes(td))
    && (forall i, j, k :: IsIn(TraceScopes(td), i, j, k) ==> HoldsSpan(td, h, spans, i, j, k))
  }

  predicate HoldsSpan(td: seq<ResourceSpans>, h: Hashes, spans: seq<SpanRow>, i: int, j: int, k: int)
    requires IsIn(TraceScopes(td), i, j, k)
  {
    var p := Place(TraceScopes(td), i, j, k);
    p < |spans| && IsSpanRow(spans[p], td[i].scopes[j][k], h.resource(td[i].resource))
  }

  lemma {:induction false} SpansAreCounted(td: seq<ResourceSpans>, h: Hashes)
    ensures |SpansIn(td, h)| == TotalCount(TraceScopes(td))
  {
    if td != [] {
      var n := |td| - 1;
      SpansAreCounted(td[..n], h);
      FlatCount(td[n].scopes);
      assert TraceScopes(td)[..n] == TraceScopes(td[..n]);
    }
  }

  lemma {:induction false} SpanIsAtPlace(td: seq<ResourceSpans>, h: Hashes, i: int, j: int, k: int)
    requires IsIn(TraceScopes(td), i, j, k)
    ensures HoldsSpan(td, h, SpansIn(td, h), i, j, k)
  {
    var n := |td| - 1;
    assert TraceScopes(td)[..n] == TraceScopes(td[..n]);
    SpansAreCounted(td[..n], h);
    if i < n {
      SamePlace(TraceScopes(td), i, j, k);
      SpanIsAtPlace(td[..n], h, i, j, k);
    } else {
      FlatAt(td[n].scopes, j, k);
    }
  }

  /** The converter's batch holds every span at its place. */
  lemma SpansAreHeld(td: seq<ResourceSpans>, h: Hashes)
    ensures HoldsSpans(td, h, SpansIn(td, h))
  {
    SpansAreCounted(td, h);
    hide HoldsSpan, SpansIn, TotalCount;
    forall i, j, k | IsIn(TraceScopes(td), i, j, k) ensures HoldsSpan(td, h, SpansIn(td, h), i, j, k) {
      SpanIsAtPlace(td, h, i, j, k);
    }
  }

  /** A resource row on first sight of its hash. */
  method NoteResource(rows: seq<ResourceRow>, seen: set<Hash>, r: Resource, h: Hashes)
    returns (more: seq<ResourceRow>, nowSeen: set<Hash>)
    requires seen == set r | r in rows :: r.hash
    ensures more == WithResource(rows, r, h) && nowSeen == set r | r in more :: r.hash
  {
    more, nowSeen := rows, seen;
    var hash := h.resource(r);
    SeenIffThere(rows, seen, hash);
    if hash !in seen {
      nowSeen := seen + {hash};
      more := rows + [ResourceRow(hash, r)];
    }
  }

  /** The batch holds exactly the payload's spans and, once each, the resources they name. */
  method ConvertTraces(td: seq<ResourceSpans>, h: Hashes) returns (batch: TraceBatch)
    ensures TraceBatchOk(batch) && DistinctResources(batch.resources)
    ensures batch.spans == SpansIn(td, h) && batch.resources == ResourcesOf(ResourcesInTraces(td), h)
    ensures HoldsSpans(td, h, batch.spans) && HoldsResources(ResourcesInTraces(td), h, batch.resources)
  {
    hide HasResource, DistinctResources, WithResource, HoldsSpans, HoldsResources;
    SpansAreHeld(td, h);
    ResourcesAreHeld(ResourcesInTraces(td), h);
    var resources: seq<ResourceRow>, spans: seq<SpanRow> := [], [];
    var seen: set<Hash> := {};
    for i := 0 to |td|
      invariant seen == set r | r in resources :: r.hash
      invariant resources == ResourcesOf(ResourcesInTraces(td)[..i], h)
      invariant spans == SpansIn(td[..i], h)
    {
      assert td[..i + 1][..i] == td[..i] && ResourcesInTraces(td)[..i + 1][..i] == ResourcesInTraces(td)[..i];
      var hash := h.resource(td[i].resource);
      resources, seen := NoteResource(resources, seen, td[i].resource, h);
      spans := AppendSpans(spans, td[i].scopes, hash);
    }
    assert td[..|td|] == td && ResourcesInTraces(td)[..|td|] == ResourcesInTraces(td);
    ResourcesOfHas(ResourcesInTraces(td), h);
    forall i | 0 <= i < |td| ensures HasResource(resources, h.resource(td[i].resource)) {
      assert ResourcesInTraces(td)[i] == td[i].resource;
    }
    SpansAreCovered(td, h, resources);
    batch := TraceBatch(resources, spans);
  }

  lemma SeenIffThere(rows: seq<ResourceRow>, seen: set<Hash>, hash: Hash)
    requires seen == set r | r in rows :: r.hash
    ensures hash in seen <==> exists i :: 0 <= i < |rows| && rows[i].hash == hash
  {
    if i :| 0 <= i < |rows| && rows[i].hash == hash { assert rows[i] in rows; }
  }

  method AppendSpans(before: seq<SpanRow>, scopes: seq<seq<SpanRow>>, hash: Hash) returns (spans: seq<SpanRow>)
    ensures spans == before + WithHash(Flat(scopes), hash)
  {
    spans := before;
    for j := 0 to |scopes|
      invariant spans == before + WithHash(Flat(scopes[..j]), hash)
    {
      assert scopes[..j + 1][..j] == scopes[..j];
      ghost var start := spans;
      for k := 0 to |scopes[j]|
        invariant spans == start + WithHash(scopes[j][..k], hash)
      {
        spans := spans + [scopes[j][k].(resourceHash := hash)];
        assert WithHash(scopes[j][..k + 1], hash)
          == WithHash(scopes[j][..k], hash) + [scopes[j][k].(resourceHash := hash)];
      }
      assert scopes[j][..|scopes[j]|] == scopes[j];
      assert WithHash(Flat(scopes[..j]) + scopes[j], hash)
        == WithHash(Flat(scopes[..j]), hash) + WithHash(scopes[j], hash);
    }
    assert scopes[..|scopes|] == scopes;
  }

  // ---- Logs ----

  /** A record without a timestamp of its own takes the time it was observed. */
  function LogTime(l: LogIn): Time { if l.timestamp == 0 then l.observed else l.timestamp }

  /** newRowID: an id of its own for every row minted. */
  type Ids = nat -> string

  datatype LogSource = LogSource(record: LogIn, hash: Hash)

  function LogsIn(ld: seq<ResourceLogs>, h: Hashes): seq<LogSource> {
    if ld == [] then []
    else
      var n := |ld| - 1;
      LogsIn(ld[..n], h) + Sources(Flat(ld[n].scopes), h.resource(ld[n].resource))
  }

  function Sources(records: seq<LogIn>, hash: Hash): seq<LogSource> {
    seq(|records|, i requires 0 <= i < |records| => LogSource(records[i], hash))
  }

  function LogRows(sources: seq<LogSource>, ids: Ids): seq<Log> {
    seq(|sources|, i requires 0 <= i < |sources| =>
      Log(ids(i), LogTime(sources[i].record), sources[i].hash, sources[i].record.detail))
  }

  function ResourcesInLogs(ld: seq<ResourceLogs>): seq<Resource> {
    seq(|ld|, i requires 0 <= i < |ld| => ld[i].resource)
  }

  lemma {:induction false} LogsAreCovered(ld: seq<ResourceLogs>, h: Hashes, rows: seq<ResourceRow>)
    requires forall i :: 0 <= i < |ld| ==> HasResource(rows, h.resource(ld[i].resource))
    ensures forall i :: 0 <= i < |LogsIn(ld, h)| ==> HasResource(rows, LogsIn(ld, h)[i].hash)
  {
    hide HasResource;
    if ld != [] {
      var n := |ld| - 1;
      LogsAreCovered(ld[..n], h, rows);
      var before, here := LogsIn(ld[..n], h), Sources(Flat(ld[n].scopes), h.resource(ld[n].resource));
      assert LogsIn(ld, h) == before + here;
    }
  }

  lemma LogRowsKeepHash(sources: seq<LogSource>, ids: Ids)
    ensures |LogRows(sources, ids)| == |sources|
    ensures forall i :: 0 <= i < |sources| ==> LogRows(sources, ids)[i].resourceHash == sources[i].hash
    ensures LogRows([], ids) == []
  {
  }

  function LogScopes(ld: seq<ResourceLogs>): seq<seq<seq<LogIn>>> {
    seq(|ld|, i requires 0 <= i < |ld| => ld[i].scopes)
  }

  /** The record under its own resource, at its own time, or if it has none at the time it was observed. */
  predicate IsLogRow(row: Log, record: LogIn, hash: Hash) {
    && row.detail == record.detail && row.resourceHash == hash
    && (record.timestamp != 0 ==> row.ts == record.timestamp)
    && (record.timestamp == 0 ==> row.ts == record.observed)
  }

  /** Every record of the payload at its place, and no others, each with an id of its own. */
  ghost predicate HoldsLogs(ld: seq<ResourceLogs>, h: Hashes, ids: Ids, logs: seq<Log>) {
    && |logs| == TotalCount(LogScopes(ld))
    && (forall i, j, k :: IsIn(LogScopes(ld), i, j, k) ==> HoldsLog(ld, h, logs, i, j, k))
    && (forall n :: 0 <= n < |logs| ==> logs[n].id == ids(n))
  }

  predicate HoldsLog(ld: seq<ResourceLogs>, h: Hashes, logs: seq<Log>, i: int, j: int, k: int)
    requires IsIn(LogScopes(ld), i, j, k)
  {
    var p := Place(LogScopes(ld), i, j, k);
    p < |logs| && IsLogRow(logs[p], ld[i].scopes[j][k], h.resource(ld[i].resource))
  }

  lemma {:induction false} LogsAreCounted(ld: seq<ResourceLogs>, h: Hashes)
    ensures |LogsIn(ld, h)| == TotalCount(LogScopes(ld))
  {
    if ld != [] {
      var n := |ld| - 1;
      LogsAreCounted(ld[..n], h);
      FlatCount(ld[n].scopes);
      assert LogScopes(ld)[..n] == LogScopes(ld[..n]);
    }
  }

  lemma {:induction false} LogIsAtPlace(ld: seq<ResourceLogs>, h: Hashes, i: int, j: int, k: int)
    requires IsIn(LogScopes(ld), i, j, k)
    ensures var p := Place(LogScopes(ld), i, j, k);
      p < |LogsIn(ld, h)| && LogsIn(ld, h)[p].record == ld[i].scopes[j][k] &&
      LogsIn(ld, h)[p].hash == h.resource(ld[i].resource)
  {
    var n := |ld| - 1;
    assert LogScopes(ld)[..n] == LogScopes(ld[..n]);
    LogsAreCounted(ld[..n], h);
    if i < n {
      SamePlace(LogScopes(ld), i, j, k);
      LogIsAtPlace(ld[..n], h, i, j, k);
    } else {
      FlatAt(ld[n].scopes, j, k);
    }
  }

  /** The converter's batch holds every record at its place. */
  lemma LogsAreHeld(ld: seq<ResourceLogs>, h: Hashes, ids: Ids)
    ensures HoldsLogs(ld, h, ids, LogRows(LogsIn(ld, h), ids))
  {
    LogsAreCounted(ld, h);
    hide LogsIn, TotalCount;
    forall i, j, k | IsIn(LogScopes(ld), i, j, k) ensures HoldsLog(ld, h, LogRows(LogsIn(ld, h), ids), i, j, k) {
      LogIsAtPlace(ld, h, i, j, k);
      var p, sources := Place(LogScopes(ld), i, j, k), LogsIn(ld, h);
      var record := sources[p].record;
      assert LogRows(sources, ids)[p] == Log(ids(p), LogTime(record), sources[p].hash, record.detail);
    }
  }

  method ConvertLogs(ld: seq<ResourceLogs>, h: Hashes, ids: Ids) returns (batch: LogBatch)
    ensures LogBatchOk(batch) && DistinctResources(batch.resources)
    ensures batch.logs == LogRows(LogsIn(ld, h), ids) && batch.resources == ResourcesOf(ResourcesInLogs(ld), h)
    ensures HoldsLogs(ld, h, ids, batch.logs) && HoldsResources(ResourcesInLogs(ld), h, batch.resources)
  {
    hide HasResource, DistinctResources, WithResource, LogRows, HoldsLogs, HoldsResources;
    LogsAreHeld(ld, h, ids);
    ResourcesAreHeld(ResourcesInLogs(ld), h);
    var resources: seq<ResourceRow>, logs: seq<Log> := [], [];
    var seen: set<Hash> := {};
    LogRowsKeepHash([], ids);
    for i := 0 to |ld|
      invariant seen == set r | r in resources :: r.hash
      invariant resources == ResourcesOf(ResourcesInLogs(ld)[..i], h)
      invariant logs == LogRows(LogsIn(ld[..i], h), ids)
    {
      assert ld[..i + 1][..i] == ld[..i] && ResourcesInLogs(ld)[..i + 1][..i] == ResourcesInLogs(ld)[..i];
      var hash := h.resource(ld[i].resource);
      resources, seen := NoteResource(resources, seen, ld[i].resource, h);
      logs := AppendLogs(LogsIn(ld[..i], h), logs, ld[i].scopes, hash, ids);
    }
    assert ld[..|ld|] == ld && ResourcesInLogs(ld)[..|ld|] == ResourcesInLogs(ld);
    ResourcesOfHas(ResourcesInLogs(ld), h);
    forall i | 0 <= i < |ld| ensures HasResource(resources, h.resource(ld[i].resource)) {
      assert ResourcesInLogs(ld)[i] == ld[i].resource;
    }
    LogsAreCovered(ld, h, resources);
    LogRowsKeepHash(LogsIn(ld, h), ids);
    batch := LogBatch(resources, logs);
  }

  lemma OneMoreLog(sources: seq<LogSource>, x: LogSource, ids: Ids)
    ensures LogRows(sources + [x], ids)
      == LogRows(sources, ids) + [Log(ids(|LogRows(sources, ids)|), LogTime(x.record), x.hash, x.record.detail)]
  {
  }

  lemma OneMoreSource(records: seq<LogIn>, k: nat, hash: Hash)
    requires k < |records|
    ensures Sources(records[..k + 1], hash) == Sources(records[..k], hash) + [LogSource(records[k], hash)]
  {
  }

  lemma SourcesAppend(a: seq<LogIn>, b: seq<LogIn>, hash: Hash)
    ensures Sources([], hash) == [] && Sources(a + b, hash) == Sources(a, hash) + Sources(b, hash)
  {
  }

  method AppendLogs(ghost sources: seq<LogSource>, before: seq<Log>, scopes: seq<seq<LogIn>>, hash: Hash, ids: Ids)
    returns (logs: seq<Log>)
    requires before == LogRows(sources, ids)
    ensures logs == LogRows(sources + Sources(Flat(scopes), hash), ids)
  {
    hide LogRows, Sources;
    SourcesAppend([], [], hash);
    logs := before;
    ghost var done := sources;
    for j := 0 to |scopes|
      invariant logs == LogRows(done, ids) && done == sources + Sources(Flat(scopes[..j]), hash)
    {
      assert scopes[..j + 1][..j] == scopes[..j];
      ghost var start := done;
      for k := 0 to |scopes[j]|
        invariant logs == LogRows(done, ids) && done == start + Sources(scopes[j][..k], hash)
      {
        var record := scopes[j][k];
        var timestamp := record.timestamp;
        if timestamp == 0 { timestamp := record.observed; }
        logs := logs + [Log(ids(|logs|), timestamp, hash, record.detail)];
        OneMoreLog(done, LogSource(record, hash), ids);
        OneMoreSource(scopes[j], k, hash);
        done := done + [LogSource(record, hash)];
      }
      assert scopes[j][..|scopes[j]|] == scopes[j];
      SourcesAppend(Flat(scopes[..j]), scopes[j], hash);
    }
    assert scopes[..|scopes|] == scopes;
  }

  // ---- Metrics ----

  /** A metric batch under construction and how many row ids it has taken. */
  datatype Building = Building(batch: MetricBatch, minted: nat)

  const NOTHING: Building := Building(MetricBatch([], [], [], [], []), 0)

  ghost predicate IsWellFormed(b: MetricBatch) {
    MetricBatchOk(b) && DistinctResources(b.resources) && DistinctSeries(b.series) && DistinctLayouts(b.layouts)
  }

  function WithSeries(rows: seq<SeriesRow>, row: SeriesRow): seq<SeriesRow> {
    if exists i :: 0 <= i < |rows| && rows[i].key == row.key then rows else rows + [row]
  }

  function WithLayout(rows: seq<LayoutRow>, row: LayoutRow): seq<LayoutRow> {
    if exists i :: 0 <= i < |rows| && rows[i].hash == row.hash then rows else rows + [row]
  }

  function SeriesOf(m: MetricIn, p: PointIn, service: string, resource: Hash, h: Hashes): SeriesRow {
    SeriesRow(h.series(SeriesIdentity(resource, m.name, m.kind, m.scope, p.attributes)),
      Series(service, m.name, m.description, resource, m.scope + p.attributes, 0, 0))
  }

  predicate HasBuckets(kind: MetricType) { kind.Histogram? || kind.ExponentialHistogram? }

  function ExemplarsOf(p: PointIn, pointId: string, first: nat, ids: Ids): seq<Exemplar> {
    seq(|p.exemplars|, i requires 0 <= i < |p.exemplars| => Exemplar(ids(first + i), pointId, p.exemplars[i]))
  }

  /** One data point: its layout if it has buckets, its series, itself, and its exemplars unless it is a summary's. */
  function PointAdded(s: Building, m: MetricIn, p: PointIn, service: string, resource: Hash, h: Hashes,
                      ids: Ids): Building {
    var b, series := s.batch, SeriesOf(m, p, service, resource, h);
    var id := ids(s.minted);
    var exemplars := if m.kind.SummaryType? then [] else ExemplarsOf(p, id, s.minted + 1, ids);
    Building(MetricBatch(
      b.resources, WithSeries(b.series, series),
      if HasBuckets(m.kind) then WithLayout(b.layouts, LayoutRow(h.layout(p.layout), p.layout)) else b.layouts,
      b.points + [Point(id, series.key, p.ts, if HasBuckets(m.kind) then Some(h.layout(p.layout)) else None, p.detail)],
      b.exemplars + exemplars), s.minted + 1 + |exemplars|)
  }

  function MetricAdded(s: Building, m: MetricIn, n: nat, service: string, resource: Hash, h: Hashes, ids: Ids): Building
    requires n <= |m.points|
  {
    if n == 0 then s
    else PointAdded(MetricAdded(s, m, n - 1, service, resource, h, ids), m, m.points[n - 1], service, resource, h, ids)
  }

  function MetricsAdded(s: Building, metrics: seq<MetricIn>, service: string, resource: Hash, h: Hashes,
                        ids: Ids): Building {
    if metrics == [] then s
    else
      var n := |metrics| - 1;
      MetricAdded(MetricsAdded(s, metrics[..n], service, resource, h, ids), metrics[n], |metrics[n].points|, service,
                  resource, h, ids)
  }

  function ResourceAdded(s: Building, r: Resource, h: Hashes): Building {
    s.(batch := s.batch.(resources := WithResource(s.batch.resources, r, h)))
  }

  /** The whole payload, resource by resource. */
  function PayloadAdded(md: seq<ResourceMetrics>, h: Hashes, ids: Ids): Building {
    if md == [] then NOTHING
    else
      var rm := md[|md| - 1];
      MetricsAdded(ResourceAdded(PayloadAdded(md[..|md| - 1], h, ids), rm.resource, h),
        Flat(rm.scopes), rm.resource.serviceName, h.resource(rm.resource), h, ids)
  }

  // ---- What stays well formed ----

  lemma WithSeriesHas(rows: seq<SeriesRow>, row: SeriesRow)
    requires DistinctSeries(rows)
    ensures var more := WithSeries(rows, row);
      && DistinctSeries(more) && HasSeries(more, row.key) && (forall x :: HasSeries(rows, x) ==> HasSeries(more, x))
      && forall i :: 0 <= i < |more| ==> more[i] == row || more[i] in rows
  {
    var more := WithSeries(rows, row);
    if more != rows { assert more[|rows|].key == row.key; }
    forall x | HasSeries(rows, x) ensures HasSeries(more, x) {
      var i :| 0 <= i < |rows| && rows[i].key == x;
      assert more[i].key == x;
    }
  }

  lemma WithLayoutHas(rows: seq<LayoutRow>, row: LayoutRow)
    requires DistinctLayouts(rows)
    ensures var more := WithLayout(rows, row);
      DistinctLayouts(more) && HasLayout(more, row.hash) && forall x :: HasLayout(rows, x) ==> HasLayout(more, x)
  {
    var more := WithLayout(rows, row);
    if more != rows { assert more[|rows|].hash == row.hash; }
    forall x | HasLayout(rows, x) ensures HasLayout(more, x) {
      var i :| 0 <= i < |rows| && rows[i].hash == x;
      assert more[i].hash == x;
    }
  }

  lemma ResourceKeepsForm(s: Building, r: Resource, h: Hashes)
    requires IsWellFormed(s.batch)
    ensures IsWellFormed(ResourceAdded(s, r, h).batch) &&
      HasResource(ResourceAdded(s, r, h).batch.resources, h.resource(r))
  {
    WithResourceHas(s.batch.resources, r, h);
    hide HasResource, DistinctResources, WithResource, HasSeries, HasLayout, DistinctSeries, DistinctLayouts;
    var b, b' := s.batch, ResourceAdded(s, r, h).batch;
    assert b'.points == b.points && b'.exemplars == b.exemplars;
    assert forall i :: 0 <= i < |b'.series| ==> HasResource(b'.resources, b'.series[i].series.resourceHash);
    assert forall i :: 0 <= i < |b'.points| ==> HasSeries(b'.series, b'.points[i].seriesKey);
    assert forall i :: 0 <= i < |b'.points| && b'.points[i].layoutHash.Some? ==>
      HasLayout(b'.layouts, b'.points[i].layoutHash.value);
  }

  lemma ExemplarsKeepPoints(s: Building, m: MetricIn, p: PointIn, service: string, resource: Hash, h: Hashes, ids: Ids)
    requires IsWellFormed(s.batch)
    ensures var b' := PointAdded(s, m, p, service, resource, h, ids).batch;
      forall i :: 0 <= i < |b'.exemplars| ==> HasPoint(b'.points, b'.exemplars[i].pointId)
  {
    hide HasResource, DistinctResources, HasSeries, HasLayout, DistinctSeries, DistinctLayouts, WithSeries, WithLayout;
    var b, b' := s.batch, PointAdded(s, m, p, service, resource, h, ids).batch;
    var n := |b.points|;
    assert forall i :: 0 <= i < n ==> b'.points[i] == b.points[i];
    forall i | 0 <= i < |b'.exemplars| ensures HasPoint(b'.points, b'.exemplars[i].pointId) {
      if i < |b.exemplars| {
        assert HasPoint(b.points, b.exemplars[i].pointId);
        var j :| 0 <= j < n && b.points[j].id == b.exemplars[i].pointId;
        assert b'.points[j].id == b'.exemplars[i].pointId;
      } else {
        assert b'.points[n].id == b'.exemplars[i].pointId;
      }
    }
  }

  lemma PointKeepsForm(s: Building, m: MetricIn, p: PointIn, service: string, resource: Hash, h: Hashes, ids: Ids)
    requires IsWellFormed(s.batch) && HasResource(s.batch.resources, resource)
    ensures IsWellFormed(PointAdded(s, m, p, service, resource, h, ids).batch)
    ensures PointAdded(s, m, p, service, resource, h, ids).batch.resources == s.batch.resources
  {
    var b, b' := s.batch, PointAdded(s, m, p, service, resource, h, ids).batch;
    var row, layout := SeriesOf(m, p, service, resource, h), LayoutRow(h.layout(p.layout), p.layout);
    WithSeriesHas(b.series, row);
    WithLayoutHas(b.layouts, layout);
    hide HasResource, DistinctResources, HasSeries, HasLayout, DistinctSeries, DistinctLayouts, WithSeries, WithLayout;
    forall i | 0 <= i < |b'.series| ensures HasResource(b.resources, b'.series[i].series.resourceHash) {
      if b'.series[i] in b.series {
        var j :| 0 <= j < |b.series| && b.series[j] == b'.series[i];
      }
    }
    var n := |b.points|;
    assert forall i :: 0 <= i < n ==> b'.points[i] == b.points[i];
    ExemplarsKeepPoints(s, m, p, service, resource, h, ids);
    assert b'.points[n].seriesKey == row.key;
    assert forall i :: 0 <= i < |b'.points| ==> HasSeries(b'.series, b'.points[i].seriesKey);
    assert forall i :: 0 <= i < |b'.points| && b'.points[i].layoutHash.Some? ==>
      HasLayout(b'.layouts, b'.points[i].layoutHash.value);
  }

  lemma {:induction false} MetricKeepsForm(s: Building, m: MetricIn, n: nat, service: string, resource: Hash,
                                           h: Hashes, ids: Ids)
    requires IsWellFormed(s.batch) && HasResource(s.batch.resources, resource) && n <= |m.points|
    ensures IsWellFormed(MetricAdded(s, m, n, service, resource, h, ids).batch)
    ensures MetricAdded(s, m, n, service, resource, h, ids).batch.resources == s.batch.resources
  {
    if n > 0 {
      MetricKeepsForm(s, m, n - 1, service, resource, h, ids);
      hide IsWellFormed, HasResource, PointAdded;
      PointKeepsForm(MetricAdded(s, m, n - 1, service, resource, h, ids), m, m.points[n - 1], service, resource, h,
                     ids);
    }
  }

  lemma {:induction false} MetricsKeepForm(s: Building, metrics: seq<MetricIn>, service: string, resource: Hash,
                                           h: Hashes, ids: Ids)
    requires IsWellFormed(s.batch) && HasResource(s.batch.resources, resource)
    ensures IsWellFormed(MetricsAdded(s, metrics, service, resource, h, ids).batch)
    ensures MetricsAdded(s, metrics, service, resource, h, ids).batch.resources == s.batch.resources
  {
    hide IsWellFormed, HasResource, MetricAdded;
    if metrics != [] {
      var n := |metrics| - 1;
      MetricsKeepForm(s, metrics[..n], service, resource, h, ids);
      MetricKeepsForm(MetricsAdded(s, metrics[..n], service, resource, h, ids), metrics[n], |metrics[n].points|,
                      service, resource, h, ids);
    }
  }

  /** Every reference inside a converted batch resolves inside it, and no dimension row is repeated. */
  lemma {:induction false} PayloadIsWellFormed(md: seq<ResourceMetrics>, h: Hashes, ids: Ids)
    ensures IsWellFormed(PayloadAdded(md, h, ids).batch)
  {
    if md != [] {
      var rm, before := md[|md| - 1], PayloadAdded(md[..|md| - 1], h, ids);
      PayloadIsWellFormed(md[..|md| - 1], h, ids);
      ResourceKeepsForm(before, rm.resource, h);
      hide IsWellFormed, HasResource, ResourceAdded, MetricsAdded;
      MetricsKeepForm(ResourceAdded(before, rm.resource, h), Flat(rm.scopes), rm.resource.serviceName,
                      h.resource(rm.resource), h, ids);
    }
  }

  lemma {:induction false} MetricsAddedAppend(s: Building, a: seq<MetricIn>, b: seq<MetricIn>, service: string,
                                              resource: Hash, h: Hashes, ids: Ids)
    ensures MetricsAdded(s, a + b, service, resource, h, ids)
      == MetricsAdded(MetricsAdded(s, a, service, resource, h, ids), b, service, resource, h, ids)
  {
    hide MetricAdded;
    if b == [] {
      assert a + b == a;
    } else {
      var n := |b| - 1;
      assert (a + b)[..|a + b| - 1] == a + b[..n];
      MetricsAddedAppend(s, a, b[..n], service, resource, h, ids);
    }
  }

  // ---- What a metric batch holds ----

  /** A data point with the metric and the resource it was reported for. */
  datatype PointSource = PointSource(resource: Resource, metric: MetricIn, point: PointIn)

  function PointsOfMetric(m: MetricIn, n: nat, r: Resource): seq<PointSource>
    requires n <= |m.points|
  {
    if n == 0 then [] else PointsOfMetric(m, n - 1, r) + [PointSource(r, m, m.points[n - 1])]
  }

  function PointsOfMetrics(metrics: seq<MetricIn>, r: Resource): seq<PointSource> {
    if metrics == [] then []
    else
      var n := |metrics| - 1;
      PointsOfMetrics(metrics[..n], r) + PointsOfMetric(metrics[n], |metrics[n].points|, r)
  }

  /** Every data point of the payload, in order. */
  function PointsIn(md: seq<ResourceMetrics>): seq<PointSource> {
    if md == [] then []
    else
      var rm := md[|md| - 1];
      PointsIn(md[..|md| - 1]) + PointsOfMetrics(Flat(rm.scopes), rm.resource)
  }

  function ResourcesInMetrics(md: seq<ResourceMetrics>): seq<Resource> {
    seq(|md|, i requires 0 <= i < |md| => md[i].resource)
  }

  function KeyOf(x: PointSource, h: Hashes): Hash {
    h.series(SeriesIdentity(h.resource(x.resource), x.metric.name, x.metric.kind, x.metric.scope, x.point.attributes))
  }

  /** The point as reported, under its series' key, with a layout exactly when it has buckets. */
  predicate IsPointRow(row: Point, x: PointSource, h: Hashes) {
    && row.ts == x.point.ts && row.detail == x.point.detail && row.seriesKey == KeyOf(x, h)
    && (x.metric.kind.Histogram? || x.metric.kind.ExponentialHistogram? ==>
          row.layoutHash == Some(h.layout(x.point.layout)))
    && (x.metric.kind.Gauge? || x.metric.kind.Sum? || x.metric.kind.SummaryType? ==> row.layoutHash == None)
  }

  ghost predicate IsFirstSource(sources: seq<PointSource>, h: Hashes, i: int, key: Hash) {
    0 <= i < |sources| && KeyOf(sources[i], h) == key && forall j :: 0 <= j < i ==> KeyOf(sources[j], h) != key
  }

  predicate IsSeriesOf(s: Series, x: PointSource, h: Hashes) {
    && s.serviceName == x.resource.serviceName && s.metricName == x.metric.name
    && s.description == x.metric.description && s.resourceHash == h.resource(x.resource)
  }

  /** The row is that of the first point of its series. */
  ghost predicate IsSeriesRow(sources: seq<PointSource>, h: Hashes, row: SeriesRow) {
    exists i :: IsFirstSource(sources, h, i, row.key) && IsSeriesOf(row.series, sources[i], h)
  }

  /** What the exemplars of the payload are: the position of their point, and themselves; a summary point has none. */
  function ExemplarsIn(sources: seq<PointSource>): seq<(int, string)> {
    if sources == [] then []
    else
      var n := |sources| - 1;
      var own := if sources[n].metric.kind.SummaryType? then [] else sources[n].point.exemplars;
      ExemplarsIn(sources[..n]) + seq(|own|, k requires 0 <= k < |own| => (n, own[k]))
  }

  predicate IsExemplarRow(row: Exemplar, x: (int, string), points: seq<Point>) {
    0 <= x.0 < |points| && row.pointId == points[x.0].id && row.detail == x.1
  }

  ghost predicate HoldsData(sources: seq<PointSource>, h: Hashes, points: seq<Point>) {
    |points| == |sources| && forall i :: 0 <= i < |sources| ==> IsPointRow(points[i], sources[i], h)
  }

  ghost predicate HoldsExemplars(sources: seq<PointSource>, points: seq<Point>, exemplars: seq<Exemplar>) {
    && |exemplars| == |ExemplarsIn(sources)|
    && forall i :: 0 <= i < |exemplars| ==> IsExemplarRow(exemplars[i], ExemplarsIn(sources)[i], points)
  }

  ghost predicate HoldsSeries(sources: seq<PointSource>, h: Hashes, rows: seq<SeriesRow>) {
    && (forall i :: 0 <= i < |sources| ==> HasSeries(rows, KeyOf(sources[i], h)))
    && (forall i :: 0 <= i < |rows| ==> IsSeriesRow(sources, h, rows[i]))
  }

  /** The layout of a point with buckets, under its hash. */
  ghost predicate IsLayoutRow(sources: seq<PointSource>, h: Hashes, row: LayoutRow) {
    exists x :: x in sources && (x.metric.kind.Histogram? || x.metric.kind.ExponentialHistogram?) &&
      row.layout == x.point.layout && row.hash == h.layout(x.point.layout)
  }

  ghost predicate HoldsLayouts(sources: seq<PointSource>, h: Hashes, rows: seq<LayoutRow>) {
    forall i :: 0 <= i < |rows| ==> IsLayoutRow(sources, h, rows[i])
  }

  /** Point by point and exemplar by exemplar, in order, with a row for the series and the layout of each. */
  ghost predicate HoldsPoints(sources: seq<PointSource>, h: Hashes, b: MetricBatch) {
    && HoldsData(sources, h, b.points) && HoldsExemplars(sources, b.points, b.exemplars)
    && HoldsSeries(sources, h, b.series) && HoldsLayouts(sources, h, b.layouts)
  }

  lemma OneMoreSeries(sources: seq<PointSource>, x: PointSource, h: Hashes, row: SeriesRow)
    ensures IsSeriesRow(sources, h, row) ==> IsSeriesRow(sources + [x], h, row)
    ensures IsFirstSource(sources + [x], h, |sources|, row.key) && IsSeriesOf(row.series, x, h) ==>
      IsSeriesRow(sources + [x], h, row)
  {
    var more := sources + [x];
    hide KeyOf, IsSeriesOf;
    assert forall j :: 0 <= j < |sources| ==> more[j] == sources[j];
    if IsSeriesRow(sources, h, row) {
      var i :| IsFirstSource(sources, h, i, row.key) && IsSeriesOf(row.series, sources[i], h);
      assert IsFirstSource(more, h, i, row.key);
    }
    assert more[|sources|] == x;
  }

  lemma SeriesAreHeld(sources: seq<PointSource>, x: PointSource, h: Hashes, rows: seq<SeriesRow>)
    requires DistinctSeries(rows) && HoldsSeries(sources, h, rows)
    ensures HoldsSeries(sources + [x], h,
              WithSeries(rows, SeriesOf(x.metric, x.point, x.resource.serviceName, h.resource(x.resource), h)))
  {
    var row := SeriesOf(x.metric, x.point, x.resource.serviceName, h.resource(x.resource), h);
    var more := WithSeries(rows, row);
    WithSeriesHas(rows, row);
    assert row.key == KeyOf(x, h) && IsSeriesOf(row.series, x, h);
    hide IsSeriesRow, KeyOf, IsSeriesOf, SeriesOf;
    forall i | 0 <= i < |more| ensures IsSeriesRow(sources + [x], h, more[i]) {
      OneMoreSeries(sources, x, h, more[i]);
      if i == |rows| {
        assert forall j :: 0 <= j < |sources| ==>
          HasSeries(rows, KeyOf(sources[j], h)) && (sources + [x])[j] == sources[j];
        assert IsFirstSource(sources + [x], h, |sources|, row.key);
      }
    }
    hide HasSeries;
  }

  lemma LayoutsAreHeld(sources: seq<PointSource>, x: PointSource, h: Hashes, rows: seq<LayoutRow>)
    requires HoldsLayouts(sources, h, rows)
    ensures HoldsLayouts(sources + [x], h, rows)
    ensures HasBuckets(x.metric.kind) ==>
      HoldsLayouts(sources + [x], h, WithLayout(rows, LayoutRow(h.layout(x.point.layout), x.point.layout)))
  {
    assert x in sources + [x] && forall y :: y in sources ==> y in sources + [x];
  }

  lemma ExemplarsAreHeld(sources: seq<PointSource>, x: PointSource, points: seq<Point>, p: Point,
                         exemplars: seq<Exemplar>, first: nat, ids: Ids)
    requires |points| == |sources| && HoldsExemplars(sources, points, exemplars)
    ensures HoldsExemplars(sources + [x], points + [p],
              exemplars + if x.metric.kind.SummaryType? then [] else ExemplarsOf(x.point, p.id, first, ids))
  {
    assert (sources + [x])[..|sources|] == sources;
  }

  lemma DataIsHeld(sources: seq<PointSource>, x: PointSource, h: Hashes, points: seq<Point>, p: Point)
    requires HoldsData(sources, h, points) && IsPointRow(p, x, h)
    ensures HoldsData(sources + [x], h, points + [p])
  {
    hide IsPointRow;
  }

  /** One more data point. */
  lemma PointIsHeld(s: Building, sources: seq<PointSource>, x: PointSource, h: Hashes, ids: Ids)
    requires IsWellFormed(s.batch) && HoldsPoints(sources, h, s.batch)
    ensures HoldsPoints(sources + [x], h,
              PointAdded(s, x.metric, x.point, x.resource.serviceName, h.resource(x.resource), h, ids).batch)
  {
    hide HoldsData, HoldsExemplars, HoldsSeries, HoldsLayouts, WithSeries, WithLayout, DistinctSeries,
      DistinctResources, DistinctLayouts, MetricBatchOk, ExemplarsOf;
    var more := PointAdded(s, x.metric, x.point, x.resource.serviceName, h.resource(x.resource), h, ids).batch;
    var p := more.points[|s.batch.points|];
    assert IsPointRow(p, x, h);
    DataIsHeld(sources, x, h, s.batch.points, p);
    DataIsCounted(sources, h, s.batch.points);
    ExemplarsAreHeld(sources, x, s.batch.points, p, s.batch.exemplars, s.minted + 1, ids);
    SeriesAreHeld(sources, x, h, s.batch.series);
    LayoutsAreHeld(sources, x, h, s.batch.layouts);
  }

  lemma DataIsCounted(sources: seq<PointSource>, h: Hashes, points: seq<Point>)
    requires HoldsData(sources, h, points)
    ensures |points| == |sources|
  {
  }

  lemma {:induction false} MetricIsHeld(s: Building, sources: seq<PointSource>, m: MetricIn, n: nat, r: Resource,
                                        h: Hashes, ids: Ids)
    requires IsWellFormed(s.batch) && HasResource(s.batch.resources, h.resource(r)) && n <= |m.points|
    requires HoldsPoints(sources, h, s.batch)
    ensures HoldsPoints(sources + PointsOfMetric(m, n, r), h,
              MetricAdded(s, m, n, r.serviceName, h.resource(r), h, ids).batch)
  {
    hide HoldsPoints, HasResource, PointAdded, IsWellFormed;
    if n == 0 {
      assert sources + [] == sources;
    } else {
      var x, before := PointSource(r, m, m.points[n - 1]), PointsOfMetric(m, n - 1, r);
      var soFar := MetricAdded(s, m, n - 1, r.serviceName, h.resource(r), h, ids);
      MetricIsHeld(s, sources, m, n - 1, r, h, ids);
      MetricKeepsForm(s, m, n - 1, r.serviceName, h.resource(r), h, ids);
      PointIsHeld(soFar, sources + before, x, h, ids);
      assert sources + before + [x] == sources + PointsOfMetric(m, n, r);
    }
  }

  lemma {:induction false} MetricsAreHeld(s: Building, sources: seq<PointSource>, metrics: seq<MetricIn>, r: Resource,
                                          h: Hashes, ids: Ids)
    requires IsWellFormed(s.batch) && HasResource(s.batch.resources, h.resource(r))
    requires HoldsPoints(sources, h, s.batch)
    ensures HoldsPoints(sources + PointsOfMetrics(metrics, r), h,
              MetricsAdded(s, metrics, r.serviceName, h.resource(r), h, ids).batch)
  {
    hide IsWellFormed, HasResource, MetricAdded, HoldsPoints, PointsOfMetric;
    if metrics == [] {
      assert sources + [] == sources;
    } else {
      var n := |metrics| - 1;
      var before, own := PointsOfMetrics(metrics[..n], r), PointsOfMetric(metrics[n], |metrics[n].points|, r);
      MetricsAreHeld(s, sources, metrics[..n], r, h, ids);
      MetricsKeepForm(s, metrics[..n], r.serviceName, h.resource(r), h, ids);
      MetricIsHeld(MetricsAdded(s, metrics[..n], r.serviceName, h.resource(r), h, ids), sources + before, metrics[n],
                   |metrics[n].points|, r, h, ids);
      assert sources + before + own == sources + (before + own);
    }
  }

  /** A converted payload holds every point and exemplar, in order, with their series and resources. */
  lemma {:induction false} PayloadIsHeld(md: seq<ResourceMetrics>, h: Hashes, ids: Ids)
    ensures HoldsPoints(PointsIn(md), h, PayloadAdded(md, h, ids).batch)
    ensures PayloadAdded(md, h, ids).batch.resources == ResourcesOf(ResourcesInMetrics(md), h)
  {
    if md != [] {
      var n := |md| - 1;
      var rm, before := md[n], PayloadAdded(md[..n], h, ids);
      PayloadIsHeld(md[..n], h, ids);
      PayloadIsWellFormed(md[..n], h, ids);
      ResourceKeepsForm(before, rm.resource, h);
      assert ResourcesInMetrics(md)[..n] == ResourcesInMetrics(md[..n]);
      assert HoldsPoints(PointsIn(md[..n]), h, ResourceAdded(before, rm.resource, h).batch);
      hide IsWellFormed, HasResource, HoldsPoints, PointsOfMetrics, MetricsAdded;
      MetricsAreHeld(ResourceAdded(before, rm.resource, h), PointsIn(md[..n]), Flat(rm.scopes), rm.resource, h, ids);
      MetricsKeepForm(ResourceAdded(before, rm.resource, h), Flat(rm.scopes), rm.resource.serviceName,
                      h.resource(rm.resource), h, ids);
    }
  }

  // ---- The converter ----

  ghost predicate AreSeen(b: MetricBatch, resources: set<Hash>, series: set<Hash>, layouts: set<Hash>) {
    && (resources == set r | r in b.resources :: r.hash)
    && (series == set r | r in b.series :: r.key)
    && (layouts == set r | r in b.layouts :: r.hash)
  }

  class MetricConverter {
    const h: Hashes
    const ids: Ids
    var batch: MetricBatch
    var minted: nat
    var seenResources: set<Hash>
    var seenSeries: set<Hash>
    var seenLayouts: set<Hash>

    ghost function View(): Building reads this { Building(batch, minted) }

    ghost predicate Valid() reads this { AreSeen(batch, seenResources, seenSeries, seenLayouts) }

    constructor (h: Hashes, ids: Ids)
      ensures Valid() && View() == NOTHING && this.h == h && this.ids == ids
    {
      this.h, this.ids, batch, minted := h, ids, MetricBatch([], [], [], [], []), 0;
      seenResources, seenSeries, seenLayouts := {}, {}, {};
    }

    method AddResource(r: Resource) returns (hash: Hash)
      requires Valid()
      modifies this
      ensures Valid() && hash == h.resource(r) && View() == ResourceAdded(old(View()), r, h)
    {
      hash := h.resource(r);
      SeenIffThere(batch.resources, seenResources, hash);
      if hash !in seenResources {
        seenResources := seenResources + {hash};
        batch := batch.(resources := batch.resources + [ResourceRow(hash, r)]);
      }
    }

    method AddSeries(row: SeriesRow)
      requires Valid()
      modifies this
      ensures Valid() && View() == old(View()).(batch := old(batch).(series := WithSeries(old(batch).series, row)))
    {
      assert row.key in seenSeries <==> exists i :: 0 <= i < |batch.series| && batch.series[i].key == row.key by {
        if i :| 0 <= i < |batch.series| && batch.series[i].key == row.key { assert batch.series[i] in batch.series; }
      }
      if row.key in seenSeries { return; }
      seenSeries := seenSeries + {row.key};
      batch := batch.(series := batch.series + [row]);
    }

    method AppendHistogramLayout(row: LayoutRow)
      requires Valid()
      modifies this
      ensures Valid() && View() == old(View()).(batch := old(batch).(layouts := WithLayout(old(batch).layouts, row)))
    {
      assert row.hash in seenLayouts <==> exists i :: 0 <= i < |batch.layouts| && batch.layouts[i].hash == row.hash by {
        if i :| 0 <= i < |batch.layouts| && batch.layouts[i].hash == row.hash {
          assert batch.layouts[i] in batch.layouts;
        }
      }
      if row.hash in seenLayouts { return; }
      seenLayouts := seenLayouts + {row.hash};
      batch := batch.(layouts := batch.layouts + [row]);
    }

    method AppendExemplars(p: PointIn, pointId: string)
      requires Valid()
      modifies this
      ensures Valid() && View() == Building(
        old(batch).(exemplars := old(batch).exemplars + ExemplarsOf(p, pointId, old(minted), ids)),
        old(minted) + |p.exemplars|)
    {
      ghost var all := ExemplarsOf(p, pointId, minted, ids);
      ghost var start := View();
      for i := 0 to |p.exemplars|
        invariant Valid() && minted == start.minted + i
        invariant batch == start.batch.(exemplars := start.batch.exemplars + all[..i])
      {
        assert all[..i + 1] == all[..i] + [Exemplar(ids(minted), pointId, p.exemplars[i])];
        batch := batch.(exemplars := batch.exemplars + [Exemplar(ids(minted), pointId, p.exemplars[i])]);
        minted := minted + 1;
      }
      assert all[..|p.exemplars|] == all;
    }

    method AddPoint(m: MetricIn, p: PointIn, service: string, resource: Hash)
      requires Valid()
      modifies this
      ensures Valid() && View() == PointAdded(old(View()), m, p, service, resource, h, ids)
    {
      hide WithSeries, WithLayout;
      var layoutHash: Option<Hash> := None;
      if HasBuckets(m.kind) {
        layoutHash := Some(h.layout(p.layout));
        AppendHistogramLayout(LayoutRow(h.layout(p.layout), p.layout));
      }
      var row := SeriesOf(m, p, service, resource, h);
      AddSeries(row);
      var id := ids(minted);
      batch := batch.(points := batch.points + [Point(id, row.key, p.ts, layoutHash, p.detail)]);
      minted := minted + 1;
      hide AreSeen, ExemplarsOf;
      if !m.kind.SummaryType? { AppendExemplars(p, id); }
    }

    method ConvertMetric(m: MetricIn, service: string, resource: Hash)
      requires Valid()
      modifies this
      ensures Valid() && View() == MetricAdded(old(View()), m, |m.points|, service, resource, h, ids)
    {
      hide PointAdded;
      ghost var start := View();
      for i := 0 to |m.points|
        invariant Valid() && View() == MetricAdded(start, m, i, service, resource, h, ids)
      {
        AddPoint(m, m.points[i], service, resource);
      }
    }

    method ConvertScopes(scopes: seq<seq<MetricIn>>, service: string, resource: Hash)
      requires Valid()
      modifies this
      ensures Valid() && View() == MetricsAdded(old(View()), Flat(scopes), service, resource, h, ids)
    {
      hide MetricAdded;
      ghost var start := View();
      for j := 0 to |scopes|
        invariant Valid() && View() == MetricsAdded(start, Flat(scopes[..j]), service, resource, h, ids)
      {
        assert scopes[..j + 1][..j] == scopes[..j];
        ghost var before := View();
        for k := 0 to |scopes[j]|
          invariant Valid() && View() == MetricsAdded(before, scopes[j][..k], service, resource, h, ids)
        {
          assert scopes[j][..k + 1][..k] == scopes[j][..k];
          ConvertMetric(scopes[j][k], service, resource);
        }
        assert scopes[j][..|scopes[j]|] == scopes[j];
        MetricsAddedAppend(start, Flat(scopes[..j]), scopes[j], service, resource, h, ids);
      }
      assert scopes[..|scopes|] == scopes;
    }
  }

  /** The batch holds what the payload says, and can be written: every reference in it resolves inside it. */
  method ConvertMetrics(md: seq<ResourceMetrics>, h: Hashes, ids: Ids) returns (batch: MetricBatch)
    ensures IsWellFormed(batch) && batch == PayloadAdded(md, h, ids).batch
    ensures HoldsPoints(PointsIn(md), h, batch) && HoldsResources(ResourcesInMetrics(md), h, batch.resources)
  {
    hide IsWellFormed, MetricsAdded, ResourceAdded, HoldsPoints, HoldsResources;
    PayloadIsHeld(md, h, ids);
    ResourcesAreHeld(ResourcesInMetrics(md), h);
    var converter := new MetricConverter(h, ids);
    for i := 0 to |md|
      invariant fresh(converter) && converter.Valid() && converter.h == h && converter.ids == ids
      invariant converter.View() == PayloadAdded(md[..i], h, ids)
    {
      assert md[..i + 1][..i] == md[..i];
      var hash := converter.AddResource(md[i].resource);
      converter.ConvertScopes(md[i].scopes, md[i].resource.serviceName, hash);
    }
    assert md[..|md|] == md;
    PayloadIsWellFormed(md, h, ids);
    batch := converter.batch;
  }
}
