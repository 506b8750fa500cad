// The three keyset-paged lists: logs newest first, traces newest first, span links by identity.
module PageQueries {
  import opened Filters
  import opened Order
  import opened Paging
  import opened Sorting

  // ---- Logs ----

  datatype LogEntry = LogEntry(ts: int, id: string)
  datatype LogCursor = LogCursor(ts: int, id: string)

  /** Whether it is the first page, and the two values bound otherwise. */
  function LogCursorArgs(after: Option<LogCursor>): (bool, int, string) {
    if after.None? then (true, 0, "") else (false, after.value.ts, after.value.id)
  }

  function LogFollow(args: (bool, int, string)): LogEntry -> bool {
    (l: LogEntry) => args.0 || l.ts < args.1 || (l.ts == args.1 && Less(l.id, args.2))
  }

  /** ORDER BY ts DESC, id DESC. */
  function LogOrder(): Precedence<LogEntry> {
    (a: LogEntry, b: LogEntry) => if a.ts != b.ts then a.ts > b.ts else Less(b.id, a.id)
  }

  function LogCursorOf(l: Option<LogEntry>): Option<LogCursor> {
    if l.None? then None else Some(LogCursor(l.value.ts, l.value.id))
  }

  function LogQuery(rows: seq<LogEntry>, matches: LogEntry -> bool): Query<LogEntry> {
    Query(rows, matches, (l: Option<LogEntry>) => LogFollow(LogCursorArgs(LogCursorOf(l))), LogOrder())
  }

  ghost predicate UniqueLogs(rows: seq<LogEntry>) { forall i, j :: 0 <= i < j < |rows| ==> rows[i].id != rows[j].id }

  lemma LogOrderIsStrict()
    ensures IsStrict(LogOrder())
  {
    var precedes := LogOrder();
    forall a: LogEntry ensures !precedes(a, a) { LessIsStrict(a.id, a.id); }
    forall a: LogEntry, b: LogEntry, c: LogEntry | precedes(a, b) && precedes(b, c) ensures precedes(a, c) {
      if a.ts == b.ts == c.ts { LessIsTransitive(c.id, b.id, a.id); }
    }
  }

  /** The WHERE clause built from a cursor means "after it in the list". */
  lemma LogKeyset(rows: seq<LogEntry>, matches: LogEntry -> bool)
    requires UniqueLogs(rows)
    ensures IsKeyset(LogQuery(rows, matches))
  {
    LogOrderIsStrict();
    forall i, j | 0 <= i < j < |rows| ensures LogOrder()(rows[i], rows[j]) || LogOrder()(rows[j], rows[i]) {
      LessIsStrict(rows[i].id, rows[j].id);
    }
  }

  method LogsPage(rows: seq<LogEntry>, matches: LogEntry -> bool, after: Option<LogCursor>, limit: int)
    returns (items: seq<LogEntry>, hasNextPage: bool)
    ensures forall last: Option<LogEntry> :: LogCursorOf(last) == after ==>
      Page(items, hasNextPage) == PageAfter(LogQuery(rows, matches), last, limit)
    ensures limit > 0 ==> |items| <= limit && (hasNextPage ==> |items| == limit)
  {
    hide Filter, OrderBy;
    var queryLimit := if limit <= 0 then NO_LIMIT else limit;
    if limit > 0 { queryLimit := queryLimit + 1; }
    var args := LogCursorArgs(after);
    items := AtMost(OrderBy(Filter(Filter(rows, matches), LogFollow(args)), LogOrder()), queryLimit);
    hasNextPage := false;
    if limit > 0 && |items| > limit {
      hasNextPage, items := true, items[..limit];
    }
  }

  /** A list shows each matching row as often as there is one, and no other. */
  ghost predicate ShowsMatching<T(!new)>(rows: seq<T>, matches: T -> bool, shown: seq<T>) {
    forall r :: multiset(shown)[r] == if matches(r) then multiset(rows)[r] else 0
  }

  lemma ShowsAllMatching<T(!new)>(rows: seq<T>, matches: T -> bool, shown: seq<T>)
    requires multiset(shown) == multiset(Filter(rows, matches))
    ensures ShowsMatching(rows, matches, shown)
  {
    forall r ensures multiset(shown)[r] == if matches(r) then multiset(rows)[r] else 0 {
      FilterCounts(rows, matches, r);
    }
  }

  /** Later, or at the same time with the greater id. */
  ghost predicate IsNewerLog(a: LogEntry, b: LogEntry) { a.ts > b.ts || (a.ts == b.ts && ComesFirst(b.id, a.id)) }

  /** Following log cursors over a fixed table lists every matching log once, newest first. */
  lemma LogPagesShowAll(rows: seq<LogEntry>, matches: LogEntry -> bool, pages: seq<Page<LogEntry>>, limit: nat)
    requires UniqueLogs(rows) && limit > 0 && IsWalk(pages, LogQuery(rows, matches), limit)
    ensures IsSortedBy(Shown(pages), LogOrder()) && multiset(Shown(pages)) == multiset(Filter(rows, matches))
    ensures ShowsMatching(rows, matches, Shown(pages))
    ensures forall i, j :: 0 <= i < j < |Shown(pages)| ==> IsNewerLog(Shown(pages)[i], Shown(pages)[j])
  {
    LogKeyset(rows, matches);
    WalkShowsAll(pages, LogQuery(rows, matches), limit);
    ShowsAllMatching(rows, matches, Shown(pages));
    hide Shown, IsWalk, Filter;
    forall i, j | 0 <= i < j < |Shown(pages)| ensures IsNewerLog(Shown(pages)[i], Shown(pages)[j]) {
      LessIsByteOrder(Shown(pages)[j].id, Shown(pages)[i].id);
    }
  }

  // ---- Traces ----

  datatype TraceEntry = TraceEntry(start: int, firstSeen: int, id: string)
  datatype TraceCursor = TraceCursor(start: int, firstSeen: int, id: string)

  function TraceCursorArgs(after: Option<TraceCursor>): (bool, int, int, string) {
    if after.None? then (true, 0, 0, "") else (false, after.value.start, after.value.firstSeen, after.value.id)
  }

  function TraceFollow(args: (bool, int, int, string)): TraceEntry -> bool {
    (t: TraceEntry) => args.0 || t.start < args.1
      || (t.start == args.1 && t.firstSeen < args.2)
      || (t.start == args.1 && t.firstSeen == args.2 && Less(t.id, args.3))
  }

  /** ORDER BY start_ts DESC, first_seen DESC, trace_id DESC. */
  function TraceOrder(): Precedence<TraceEntry> {
    (a: TraceEntry, b: TraceEntry) =>
      if a.start != b.start then a.start > b.start
      else if a.firstSeen != b.firstSeen then a.firstSeen > b.firstSeen
      else Less(b.id, a.id)
  }

  function TraceCursorOf(t: Option<TraceEntry>): Option<TraceCursor> {
    if t.None? then None else Some(TraceCursor(t.value.start, t.value.firstSeen, t.value.id))
  }

  function TraceQuery(rows: seq<TraceEntry>, matches: TraceEntry -> bool): Query<TraceEntry> {
    Query(rows, matches, (t: Option<TraceEntry>) => TraceFollow(TraceCursorArgs(TraceCursorOf(t))), TraceOrder())
  }

  /** trace_id is the table's primary key. */
  ghost predicate UniqueTraces(rows: seq<TraceEntry>) {
    forall i, j :: 0 <= i < j < |rows| ==> rows[i].id != rows[j].id
  }

  lemma TraceOrderIsStrict()
    ensures IsStrict(TraceOrder())
  {
    var precedes := TraceOrder();
    forall a: TraceEntry ensures !precedes(a, a) { LessIsStrict(a.id, a.id); }
    forall a: TraceEntry, b: TraceEntry, c: TraceEntry | precedes(a, b) && precedes(b, c) ensures precedes(a, c) {
      if a.start == b.start == c.start && a.firstSeen == b.firstSeen == c.firstSeen {
        LessIsTransitive(c.id, b.id, a.id);
      }
    }
  }

  lemma TraceKeyset(rows: seq<TraceEntry>, matches: TraceEntry -> bool)
    requires UniqueTraces(rows)
    ensures IsKeyset(TraceQuery(rows, matches))
  {
    TraceOrderIsStrict();
    forall i, j | 0 <= i < j < |rows| ensures TraceOrder()(rows[i], rows[j]) || TraceOrder()(rows[j], rows[i]) {
      LessIsStrict(rows[i].id, rows[j].id);
    }
  }

  method TracesPage(rows: seq<TraceEntry>, matches: TraceEntry -> bool, after: Option<TraceCursor>, limit: int)
    returns (items: seq<TraceEntry>, hasNextPage: bool)
    ensures forall last: Option<TraceEntry> :: TraceCursorOf(last) == after ==>
      Page(items, hasNextPage) == PageAfter(TraceQuery(rows, matches), last, limit)
    ensures limit > 0 ==> |items| <= limit && (hasNextPage ==> |items| == limit)
  {
    hide Filter, OrderBy;
    var queryLimit := if limit <= 0 then NO_LIMIT else limit;
    if limit > 0 { queryLimit := queryLimit + 1; }
    var args := TraceCursorArgs(after);
    items := AtMost(OrderBy(Filter(Filter(rows, matches), TraceFollow(args)), TraceOrder()), queryLimit);
    hasNextPage := false;
    if limit > 0 && |items| > limit {
      hasNextPage, items := true, items[..limit];
    }
  }

  /** Started later; at the same time, first seen later; and of those the greater id. */
  ghost predicate IsNewerTrace(a: TraceEntry, b: TraceEntry) {
    a.start > b.start || (a.start == b.start &&
      (a.firstSeen > b.firstSeen || (a.firstSeen == b.firstSeen && ComesFirst(b.id, a.id))))
  }

  lemma TracePagesShowAll(rows: seq<TraceEntry>, matches: TraceEntry -> bool, pages: seq<Page<TraceEntry>>, limit: nat)
    requires UniqueTraces(rows) && limit > 0 && IsWalk(pages, TraceQuery(rows, matches), limit)
    ensures IsSortedBy(Shown(pages), TraceOrder()) && multiset(Shown(pages)) == multiset(Filter(rows, matches))
    ensures ShowsMatching(rows, matches, Shown(pages))
    ensures forall i, j :: 0 <= i < j < |Shown(pages)| ==> IsNewerTrace(Shown(pages)[i], Shown(pages)[j])
  {
    TraceKeyset(rows, matches);
    WalkShowsAll(pages, TraceQuery(rows, matches), limit);
    ShowsAllMatching(rows, matches, Shown(pages));
    hide Shown, IsWalk, Filter;
    forall i, j | 0 <= i < j < |Shown(pages)| ensures IsNewerTrace(Shown(pages)[i], Shown(pages)[j]) {
      LessIsByteOrder(Shown(pages)[j].id, Shown(pages)[i].id);
    }
  }

  // ---- Span links ----

  datatype LinkEntry = LinkEntry(sourceTrace: string, sourceSpan: string, ordinal: int, trace: string, span: string)

  /** A decoded cursor: the span and direction it was made for, and the last link shown. */
  datatype LinkCursor = LinkCursor(
    trace: string, span: string, incoming: bool, sourceTrace: string, sourceSpan: string, ordinal: int)

  datatype LinkPage = LinkPage(items: seq<LinkEntry>, hasNextPage: bool, endCursor: Option<LinkCursor>)
  datatype LinkResult = Links(page: LinkPage) | InvalidFirst | InvalidCursor

  predicate IsHex(c: char) { '0' <= c <= '9' || 'a' <= c <= 'f' || 'A' <= c <= 'F' }

  /** Hexadecimal, of the given length and not all zeros. */
  ghost predicate IsContextId(s: string, length: nat) {
    |s| == length && (forall i :: 0 <= i < |s| ==> IsHex(s[i])) && exists i :: 0 <= i < |s| && s[i] != '0'
  }

  method ValidSpanContext(traceId: string, spanId: string) returns (valid: bool)
    ensures valid <==> IsContextId(traceId, 32) && IsContextId(spanId, 16)
  {
    var values, lengths := [traceId, spanId], [32, 16];
    for i := 0 to 2
      invariant forall k :: 0 <= k < i ==> IsContextId(values[k], lengths[k])
    {
      var allZeros, allHex := true, true;
      for j := 0 to |values[i]|
        invariant allZeros <==> forall k :: 0 <= k < j ==> values[i][k] == '0'
        invariant allHex <==> forall k :: 0 <= k < j ==> IsHex(values[i][k])
      {
        if values[i][j] != '0' { allZeros := false; }
        if !IsHex(values[i][j]) { allHex := false; }
      }
      if |values[i]| != lengths[i] || allZeros || !allHex {
        assert !IsContextId(values[i], lengths[i]);
        return false;
      }
    }
    assert IsContextId(values[0], lengths[0]) && IsContextId(values[1], lengths[1]);
    return true;
  }

  function LinkMatches(trace: string, span: string, incoming: bool): LinkEntry -> bool {
    (l: LinkEntry) =>
      if incoming then l.trace == trace && l.span == span else l.sourceTrace == trace && l.sourceSpan == span
  }

  /** (source_trace_id, source_span_id, ordinal) > (?, ?, ?). */
  function LinkFollow(args: (string, string, int)): LinkEntry -> bool {
    (l: LinkEntry) => Less(args.0, l.sourceTrace)
      || (args.0 == l.sourceTrace && (Less(args.1, l.sourceSpan) || (args.1 == l.sourceSpan && args.2 < l.ordinal)))
  }

  /** ORDER BY source_trace_id, source_span_id, ordinal. */
  function LinkOrder(): Precedence<LinkEntry> {
    (a: LinkEntry, b: LinkEntry) =>
      if a.sourceTrace != b.sourceTrace then Less(a.sourceTrace, b.sourceTrace)
      else if a.sourceSpan != b.sourceSpan then Less(a.sourceSpan, b.sourceSpan)
      else a.ordinal < b.ordinal
  }

  /** Without a cursor the comparison starts below every link there can be. */
  function LinkArgs(l: Option<LinkEntry>): (string, string, int) {
    if l.None? then ("", "", -1) else (l.value.sourceTrace, l.value.sourceSpan, l.value.ordinal)
  }

  function LinkQuery(rows: seq<LinkEntry>, trace: string, span: string, incoming: bool): Query<LinkEntry> {
    Query(rows, LinkMatches(trace, span, incoming), (l: Option<LinkEntry>) => LinkFollow(LinkArgs(l)), LinkOrder())
  }

  /** Ordinals count a span's links from zero, and no two links share one. */
  ghost predicate AreNumbered(rows: seq<LinkEntry>) {
    && (forall i :: 0 <= i < |rows| ==> rows[i].ordinal >= 0)
    && forall i, j :: 0 <= i < j < |rows| ==>
      || rows[i].sourceTrace != rows[j].sourceTrace || rows[i].sourceSpan != rows[j].sourceSpan
      || rows[i].ordinal != rows[j].ordinal
  }

  lemma LinkOrderIsStrict()
    ensures IsStrict(LinkOrder())
  {
    var precedes := LinkOrder();
    forall a: LinkEntry, b: LinkEntry, c: LinkEntry | precedes(a, b) && precedes(b, c) ensures precedes(a, c) {
      LinkStepsCompose(a, b, c);
    }
  }

  lemma LinkStepsCompose(a: LinkEntry, b: LinkEntry, c: LinkEntry)
    requires LinkOrder()(a, b) && LinkOrder()(b, c)
    ensures LinkOrder()(a, c)
  {
    LessIsStrict(a.sourceTrace, b.sourceTrace);
    LessIsStrict(a.sourceSpan, b.sourceSpan);
    if Less(a.sourceTrace, b.sourceTrace) && Less(b.sourceTrace, c.sourceTrace) {
      LessIsTransitive(a.sourceTrace, b.sourceTrace, c.sourceTrace);
      LessIsStrict(a.sourceTrace, c.sourceTrace);
    }
    if Less(a.sourceSpan, b.sourceSpan) && Less(b.sourceSpan, c.sourceSpan) {
      LessIsTransitive(a.sourceSpan, b.sourceSpan, c.sourceSpan);
      LessIsStrict(a.sourceSpan, c.sourceSpan);
    }
  }

  lemma LinkFollows(c: LinkEntry, l: LinkEntry)
    ensures LinkFollow(LinkArgs(Some(c)))(l) <==> LinkOrder()(c, l)
  {
    LessIsStrict(c.sourceTrace, l.sourceTrace);
    LessIsStrict(c.sourceSpan, l.sourceSpan);
  }

  lemma LinkKeyset(rows: seq<LinkEntry>, trace: string, span: string, incoming: bool)
    requires AreNumbered(rows)
    ensures IsKeyset(LinkQuery(rows, trace, span, incoming))
  {
    LinkOrderIsStrict();
    forall i, j | 0 <= i < j < |rows| ensures LinkOrder()(rows[i], rows[j]) || LinkOrder()(rows[j], rows[i]) {
      LessIsStrict(rows[i].sourceTrace, rows[j].sourceTrace);
      LessIsStrict(rows[i].sourceSpan, rows[j].sourceSpan);
    }
    forall c: LinkEntry, l: LinkEntry ensures LinkFollow(LinkArgs(Some(c)))(l) <==> LinkOrder()(c, l) {
      LinkFollows(c, l);
    }
    forall l | l in rows ensures LinkFollow(LinkArgs(None))(l) {
    }
  }

  predicate AcceptsCursor(c: LinkCursor, trace: string, span: string, incoming: bool) {
    c.trace == trace && c.span == span && c.incoming == incoming && c.ordinal >= 0
  }

  function LinkCursorOf(l: LinkEntry, trace: string, span: string, incoming: bool): LinkCursor {
    LinkCursor(trace, span, incoming, l.sourceTrace, l.sourceSpan, l.ordinal)
  }

  /** The cursor a request carries is that of the last link shown before it, or there is neither. */
  predicate IsCursorOf(c: Option<LinkCursor>, last: Option<LinkEntry>, trace: string, span: string, incoming: bool) {
    && (last.None? <==> c.None?)
    && (last.Some? ==> LinkCursorOf(last.value, trace, span, incoming) == c.value)
  }

  /** An incoming link leads to the span, an outgoing one comes from it. */
  predicate IsLinkOfSpan(l: LinkEntry, trace: string, span: string, incoming: bool) {
    && (incoming ==> l.trace == trace && l.span == span)
    && (!incoming ==> l.sourceTrace == trace && l.sourceSpan == span)
  }

  lemma FollowingAreRows<T(!new)>(rows: seq<T>, matches: T -> bool, follow: T -> bool, precedes: Precedence<T>)
    ensures forall l :: l in OrderBy(Filter(Filter(rows, matches), follow), precedes) ==> l in rows && matches(l)
  {
    FilterHas(rows, matches);
    FilterHas(Filter(rows, matches), follow);
    var following := Filter(Filter(rows, matches), follow);
    OrderByHas(following, precedes);
    hide Filter, OrderBy;
    forall l | l in OrderBy(following, precedes) ensures l in following { assert l in multiset(following); }
  }

  ghost predicate AreLinksOf(links: seq<LinkEntry>, rows: seq<LinkEntry>, trace: string, span: string, incoming: bool) {
    forall l :: l in links ==> l in rows && IsLinkOfSpan(l, trace, span, incoming)
  }

  lemma NoLinks(rows: seq<LinkEntry>, trace: string, span: string, incoming: bool)
    ensures AreLinksOf([], rows, trace, span, incoming)
  {
  }

  lemma FoundAreLinks(rows: seq<LinkEntry>, trace: string, span: string, incoming: bool, cursor: (string, string, int),
                      first: nat)
    ensures var matching := Filter(rows, LinkMatches(trace, span, incoming));
      var items := AtMost(OrderBy(Filter(matching, LinkFollow(cursor)), LinkOrder()), first + 1);
      && AreLinksOf(items, rows, trace, span, incoming)
      && (first < |items| ==> AreLinksOf(items[..first], rows, trace, span, incoming))
  {
    FollowingAreRows(rows, LinkMatches(trace, span, incoming), LinkFollow(cursor), LinkOrder());
    var found := OrderBy(Filter(Filter(rows, LinkMatches(trace, span, incoming)), LinkFollow(cursor)), LinkOrder());
    assert AreLinksOf(found, rows, trace, span, incoming);
    hide Filter, OrderBy;
    assert AtMost(found, first + 1) <= found;
    assert forall l :: l in AtMost(found, first + 1) ==> l in found;
  }

  /** The page a cursor leads to, or why there is none; only links of a valid span context come in. */
  method SpanLinks(rows: seq<LinkEntry>, trace: string, span: string, incoming: bool, after: Option<LinkCursor>,
                   first: int)
    returns (r: LinkResult)
    ensures r.InvalidFirst? <==> first < 1 || first > 100
    ensures r.InvalidCursor? <==> !r.InvalidFirst? && after.Some? && !AcceptsCursor(after.value, trace, span, incoming)
    ensures r.Links? && incoming && !(IsContextId(trace, 32) && IsContextId(span, 16)) ==>
      r.page == LinkPage([], false, None)
    ensures r.Links? && (incoming ==> IsContextId(trace, 32) && IsContextId(span, 16)) ==>
      forall last: Option<LinkEntry> :: IsCursorOf(after, last, trace, span, incoming) ==>
        var p := PageAfter(LinkQuery(rows, trace, span, incoming), last, first);
        r.page.items == p.items && r.page.hasNextPage == p.hasNextPage
    ensures r.Links? ==> AreLinksOf(r.page.items, rows, trace, span, incoming)
    ensures r.Links? ==> |r.page.items| <= first && (r.page.hasNextPage ==> |r.page.items| == first)
    ensures r.Links? && r.page.items == [] ==> r.page.endCursor == None
    ensures r.Links? && r.page.items != [] ==>
      r.page.endCursor == Some(LinkCursorOf(r.page.items[|r.page.items| - 1], trace, span, incoming))
  {
    hide Filter, OrderBy, AreLinksOf, IsContextId, LinkMatches, LinkFollow, LinkOrder;
    NoLinks(rows, trace, span, incoming);
    if first < 1 || first > 100 { return InvalidFirst; }
    var cursor := ("", "", -1);
    if after.Some? {
      var c := after.value;
      if c.trace != trace || c.span != span || c.incoming != incoming || c.ordinal < 0 { return InvalidCursor; }
      cursor := (c.sourceTrace, c.sourceSpan, c.ordinal);
    }
    if incoming {
      var valid := ValidSpanContext(trace, span);
      if !valid { return Links(LinkPage([], false, None)); }
    }
    var following := Filter(Filter(rows, LinkMatches(trace, span, incoming)), LinkFollow(cursor));
    var items := AtMost(OrderBy(following, LinkOrder()), first + 1);
    FoundAreLinks(rows, trace, span, incoming, cursor, first);
    var hasNextPage := false;
    if |items| > first {
      hasNextPage, items := true, items[..first];
    }
    var endCursor := None;
    if |items| > 0 { endCursor := Some(LinkCursorOf(items[|items| - 1], trace, span, incoming)); }
    return Links(LinkPage(items, hasNextPage, endCursor));
  }

  /** By source trace, then source span, then position among that span's links. */
  ghost predicate IsEarlierLink(a: LinkEntry, b: LinkEntry) {
    || ComesFirst(a.sourceTrace, b.sourceTrace)
    || (a.sourceTrace == b.sourceTrace && (ComesFirst(a.sourceSpan, b.sourceSpan)
        || (a.sourceSpan == b.sourceSpan && a.ordinal < b.ordinal)))
  }

  lemma LinkPagesShowAll(
    rows: seq<LinkEntry>, trace: string, span: string, incoming: bool, pages: seq<Page<LinkEntry>>, limit: nat)
    requires AreNumbered(rows) && limit > 0 && IsWalk(pages, LinkQuery(rows, trace, span, incoming), limit)
    ensures IsSortedBy(Shown(pages), LinkOrder())
    ensures multiset(Shown(pages)) == multiset(Filter(rows, LinkMatches(trace, span, incoming)))
    ensures ShowsMatching(rows, (l: LinkEntry) => IsLinkOfSpan(l, trace, span, incoming), Shown(pages))
    ensures forall i, j :: 0 <= i < j < |Shown(pages)| ==> IsEarlierLink(Shown(pages)[i], Shown(pages)[j])
  {
    LinkKeyset(rows, trace, span, incoming);
    WalkShowsAll(pages, LinkQuery(rows, trace, span, incoming), limit);
    var matches := LinkMatches(trace, span, incoming);
    ShowsAllMatching(rows, matches, Shown(pages));
    hide Shown, IsWalk, Filter;
    assert forall l :: matches(l) <==> IsLinkOfSpan(l, trace, span, incoming);
    forall i, j | 0 <= i < j < |Shown(pages)| ensures IsEarlierLink(Shown(pages)[i], Shown(pages)[j]) {
      var a, b := Shown(pages)[i], Shown(pages)[j];
      LessIsByteOrder(a.sourceTrace, b.sourceTrace);
      LessIsByteOrder(a.sourceSpan, b.sourceSpan);
    }
  }

  /** Every cursor a page hands out is accepted again. */
  lemma EndCursorIsAccepted(rows: seq<LinkEntry>, trace: string, span: string, incoming: bool, l: LinkEntry)
    requires AreNumbered(rows) && l in rows
    ensures AcceptsCursor(LinkCursorOf(l, trace, span, incoming), trace, span, incoming)
  {
    var i :| 0 <= i < |rows| && rows[i] == l;
  }
}
