// The detail page's own reduction of a trace's spans, which has to agree with the stored summary.
module TraceDetail {
  import opened Order
  import opened Rows
  import opened TraceSummary

  /** A span joined with its resource. */
  datatype SpanDetail = SpanDetail(span: Span, serviceName: string)

  datatype RootView = RootView(name: string, kind: string, statusCode: string, duration: int)

  /** What a reader sees of one trace. */
  datatype TraceView = TraceView(
    traceId: string, startTime: Time, duration: int, spanCount: nat, linkCount: nat, hasError: bool,
    serviceName: string, root: Option<RootView>)

  function SpansIn(details: seq<SpanDetail>): (r: seq<Span>)
    ensures |r| == |details| && forall i :: 0 <= i < |r| ==> r[i] == details[i].span
  {
    seq(|details|, i requires 0 <= i < |details| => details[i].span)
  }

  function ViewRoot(s: Span): RootView { RootView(s.name, s.kind, s.statusCode, s.Duration()) }

  /** What the table read returns for a stored summary: the root's service, else the earliest span's. */
  function StoredView(s: Summary, services: map<Hash, string>): TraceView
    requires s.earliestResourceHash in services
  {
    TraceView(s.traceId, s.startTs, s.endTs - s.startTs, s.spanCount, s.linkCount, s.hasError,
      if s.root.Some? && s.root.value.resourceHash in services then services[s.root.value.resourceHash]
      else services[s.earliestResourceHash],
      if s.root.Some?
      then Some(RootView(s.root.value.name, s.root.value.kind, s.root.value.statusCode, s.root.value.Duration()))
      else None)
  }

  /** The longest parentless span, equal durations by span id; `None` for a rootless trace. */
  method PickRootSpan(spans: seq<SpanDetail>) returns (root: Option<nat>)
    requires UniqueKeys(SpansIn(spans)) && SameTrace(SpansIn(spans))
    ensures root.None? ==> IsRoot(SpansIn(spans), None)
    ensures root.Some? ==> IsFirstRoot(SpansIn(spans), root.value)
  {
    root := None;
    ghost var rows := SpansIn(spans);
    for i := 0 to |spans|
      invariant root.None? ==> forall j :: 0 <= j < i ==> rows[j].parentSpanId != ""
      invariant root.Some? ==> root.value < i && IsFirstRoot(rows[..i], root.value)
    {
      var sp := spans[i].span;
      if sp.parentSpanId != "" { continue; }
      ghost var before := root;
      if root.None? || sp.Duration() > spans[root.value].span.Duration() ||
         (sp.Duration() == spans[root.value].span.Duration() && Less(sp.spanId, spans[root.value].span.spanId)) {
        root := Some(i);
      }
      BetterRoot(rows, i, before);
    }
    assert rows[..|rows|] == rows;
  }

  ghost predicate SameTrace(rows: seq<Span>) {
    forall i, j :: 0 <= i < |rows| && 0 <= j < |rows| ==> rows[i].traceId == rows[j].traceId
  }

  /** One more parentless span either beats the best root so far or loses to it. */
  lemma BetterRoot(rows: seq<Span>, i: nat, root: Option<nat>)
    requires UniqueKeys(rows) && SameTrace(rows) && i < |rows| && rows[i].parentSpanId == ""
    requires root.None? ==> forall j :: 0 <= j < i ==> rows[j].parentSpanId != ""
    requires root.Some? ==> root.value < i && IsFirstRoot(rows[..i], root.value)
    ensures root.None? || RootBefore(rows[i], rows[root.value]) ==> IsFirstRoot(rows[..i + 1], i)
    ensures root.Some? && !RootBefore(rows[i], rows[root.value]) ==> IsFirstRoot(rows[..i + 1], root.value)
  {
    if root.Some? {
      var k := root.value;
      assert rows[k].Key() != rows[i].Key();
      LessIsStrict(rows[i].spanId, rows[k].spanId);
      forall j | 0 <= j < i && rows[j].parentSpanId == "" && RootBefore(rows[i], rows[k])
        ensures RootBefore(rows[i], rows[j])
      {
        if j != k {
          assert RootBefore(rows[..i][k], rows[..i][j]);
          if Less(rows[i].spanId, rows[k].spanId) && Less(rows[k].spanId, rows[j].spanId) {
            LessIsTransitive(rows[i].spanId, rows[k].spanId, rows[j].spanId);
          }
        }
      }
      forall j | 0 <= j < i && j != k && rows[j].parentSpanId == ""
        ensures RootBefore(rows[k], rows[j])
      {
        assert RootBefore(rows[..i][k], rows[..i][j]);
      }
    }
  }

  /** One more span either starts before the earliest so far or after it. */
  lemma BetterEarliest(rows: seq<Span>, i: nat, k: nat)
    requires UniqueKeys(rows) && SameTrace(rows) && k < i < |rows| && IsFirstStarted(rows[..i], k)
    ensures StartsBefore(rows[i], rows[k]) ==> IsFirstStarted(rows[..i + 1], i)
    ensures !StartsBefore(rows[i], rows[k]) ==> IsFirstStarted(rows[..i + 1], k)
  {
    assert rows[k].Key() != rows[i].Key();
    LessIsStrict(rows[i].spanId, rows[k].spanId);
    forall j | 0 <= j < i && j != k
      ensures StartsBefore(rows[k], rows[j])
      ensures StartsBefore(rows[i], rows[k]) ==> StartsBefore(rows[i], rows[j])
    {
      assert StartsBefore(rows[..i][k], rows[..i][j]);
      if Less(rows[i].spanId, rows[k].spanId) && Less(rows[k].spanId, rows[j].spanId) {
        LessIsTransitive(rows[i].spanId, rows[k].spanId, rows[j].spanId);
      }
    }
  }

  method EarliestSpan(spans: seq<SpanDetail>) returns (earliest: nat)
    requires spans != [] && UniqueKeys(SpansIn(spans)) && SameTrace(SpansIn(spans))
    ensures IsFirstStarted(SpansIn(spans), earliest)
  {
    earliest := 0;
    ghost var rows := SpansIn(spans);
    for i := 1 to |spans|
      invariant earliest < i && IsFirstStarted(rows[..i], earliest)
    {
      BetterEarliest(rows, i, earliest);
      if spans[i].span.startTs < spans[earliest].span.startTs ||
         (spans[i].span.startTs == spans[earliest].span.startTs &&
          Less(spans[i].span.spanId, spans[earliest].span.spanId)) {
        earliest := i;
      }
    }
    assert rows[..|rows|] == rows;
  }

  /** The running bounds, link total and error flag of the spans read so far. */
  ghost predicate IsReduction(rows: seq<Span>, start: Time, end: Time, links: nat, hasError: bool) {
    IsMinStart(rows, start) && IsMaxEnd(rows, end) && links == LinkSum(rows) && hasError == HasError(rows)
  }

  lemma ReductionStep(rows: seq<Span>, i: nat, start: Time, end: Time, links: nat, hasError: bool)
    requires i < |rows|
    requires IsReduction(rows[..i], start, end, links, hasError) ||
             (i == 0 && start == rows[0].startTs && end == rows[0].endTs && links == 0 && !hasError)
    ensures IsReduction(rows[..i + 1], Min(start, rows[i].startTs), Max(end, rows[i].endTs),
                        links + rows[i].linkCount, hasError || rows[i].statusCode == "Error")
  {
    var before, upTo := rows[..i], rows[..i + 1];
    assert upTo[..i] == before && upTo[i] == rows[i];
    assert forall j :: 0 <= j < i ==> upTo[j] == before[j];
    if i > 0 {
      var a :| 0 <= a < i && before[a].startTs == start;
      assert upTo[a].startTs == start;
      var b :| 0 <= b < i && before[b].endTs == end;
      assert upTo[b].endTs == end;
    }
    if HasError(before) {
      var e :| 0 <= e < i && before[e].statusCode == "Error";
      assert upTo[e].statusCode == "Error";
    }
  }

  /** Reduces a trace's full span set, in whatever order it was read. */
  method SummarizeSpans(traceId: string, spans: seq<SpanDetail>) returns (t: TraceView)
    requires UniqueKeys(SpansIn(spans)) && SameTrace(SpansIn(spans))
    ensures spans == [] ==> t == TraceView(traceId, 0, 0, 0, 0, false, "", None)
    ensures spans != [] ==> IsView(traceId, spans, t)
  {
    if spans == [] { return TraceView(traceId, 0, 0, 0, 0, false, "", None); }
    ghost var rows := SpansIn(spans);
    var start, end := spans[0].span.startTs, spans[0].span.endTs;
    var links: nat, hasError := 0, false;
    for i := 0 to |spans|
      invariant IsReduction(rows[..i], start, end, links, hasError) ||
                (i == 0 && start == rows[0].startTs && end == rows[0].endTs && links == 0 && !hasError)
    {
      ReductionStep(rows, i, start, end, links, hasError);
      var sp := spans[i].span;
      links := links + sp.linkCount;
      if sp.startTs < start { start := sp.startTs; }
      if sp.endTs > end { end := sp.endTs; }
      if sp.statusCode == "Error" { hasError := true; }
    }
    assert rows[..|rows|] == rows;
    t := TraceView(traceId, start, end - start, |spans|, links, hasError, "", None);
    var root := PickRootSpan(spans);
    if root.Some? {
      t := t.(root := Some(ViewRoot(spans[root.value].span)), serviceName := spans[root.value].serviceName);
    } else {
      var first := EarliestSpan(spans);
      t := t.(serviceName := spans[first].serviceName);
    }
  }

  /** The root shown and its service; a rootless trace shows the earliest span's service. */
  ghost predicate IsRootView(spans: seq<SpanDetail>, t: TraceView) {
    var rows := SpansIn(spans);
    match t.root
    case Some(r) => exists k :: IsFirstRoot(rows, k) && r == ViewRoot(rows[k]) && t.serviceName == spans[k].serviceName
    case None => IsRoot(rows, None) && exists k :: IsFirstStarted(rows, k) && t.serviceName == spans[k].serviceName
  }

  /** `t` shows the aggregate of `spans`. */
  ghost predicate IsView(traceId: string, spans: seq<SpanDetail>, t: TraceView) {
    && t.traceId == traceId && t.spanCount == |spans|
    && IsReduction(SpansIn(spans), t.startTime, t.startTime + t.duration, t.linkCount, t.hasError)
    && IsRootView(spans, t)
  }

  lemma RootViewAgrees(spans: seq<SpanDetail>, stored: seq<Span>, s: Summary, services: map<Hash, string>, t: TraceView)
    requires Stripped(SpansIn(spans)) == Stripped(stored) && IsRoot(stored, s.root)
    requires IsEarliest(stored, s.earliestSpanId, s.earliestResourceHash)
    requires forall i :: 0 <= i < |spans| ==>
      spans[i].span.resourceHash in services && spans[i].serviceName == services[spans[i].span.resourceHash]
    requires s.earliestResourceHash in services && IsRootView(spans, t)
    ensures t.root == StoredView(s, services).root && t.serviceName == StoredView(s, services).serviceName
  {
    var rows := SpansIn(spans);
    match t.root
    case Some(r) =>
      var k :| IsFirstRoot(rows, k) && r == ViewRoot(rows[k]) && t.serviceName == spans[k].serviceName;
      assert IsRoot(rows, Some(RootRow(rows[k])));
      RootsAgree(rows, stored, Some(RootRow(rows[k])), s.root);
    case None =>
      RootsAgree(rows, stored, None, s.root);
      var k :| IsFirstStarted(rows, k) && t.serviceName == spans[k].serviceName;
      EarliestAgree(rows, stored, rows[k].spanId, rows[k].resourceHash, s.earliestSpanId, s.earliestResourceHash);
  }

  /** The detail page and the stored summary show the same trace: bounds, counts, error flag, root and service. */
  lemma DetailAgreesWithStored(spans: seq<SpanDetail>, stored: seq<Span>, s: Summary, services: map<Hash, string>,
                               t: TraceView)
    requires UniqueKeys(SpansIn(spans)) && UniqueKeys(stored) && Stripped(SpansIn(spans)) == Stripped(stored)
    requires IsAggregate(stored, s) && IsView(s.traceId, spans, t)
    requires forall i :: 0 <= i < |spans| ==>
      spans[i].span.resourceHash in services && spans[i].serviceName == services[spans[i].span.resourceHash]
    requires s.earliestResourceHash in services
    ensures t == StoredView(s, services)
  {
    var rows := SpansIn(spans);
    StrippedSize(rows);
    StrippedSize(stored);
    LinkSumAgrees(rows, stored);
    StartsAgree(rows, stored, t.startTime, s.startTs);
    EndsAgree(rows, stored, t.startTime + t.duration, s.endTs);
    ErrorsAgree(rows, stored);
    RootViewAgrees(spans, stored, s, services, t);
  }
}
