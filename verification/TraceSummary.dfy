// trace_summaries: the incremental merge, and the SQL aggregation it has to agree with.
module TraceSummary {
  import opened Order
  import opened Rows

  datatype Root = Root(
    spanId: string, name: string, kind: string, statusCode: string,
    startTs: Time, endTs: Time, resourceHash: Hash)
  {
    function Duration(): int { endTs - startTs }
  }

  /** One trace_summaries row; a trace without a parentless span has no root. */
  datatype Summary = Summary(
    traceId: string, startTs: Time, endTs: Time, spanCount: nat, linkCount: nat, hasError: bool,
    firstSeen: Time, root: Option<Root>, earliestSpanId: string, earliestResourceHash: Hash)

  function RootRow(s: Span): Root {
    Root(s.spanId, s.name, s.kind, s.statusCode, s.startTs, s.endTs, s.resourceHash)
  }

  // ---- The meaning of the aggregation query, column by column ----

  /** Root order: longest first, equal durations by span id. */
  predicate RootBefore(a: Span, b: Span) {
    a.Duration() > b.Duration() || (a.Duration() == b.Duration() && Less(a.spanId, b.spanId))
  }

  /** Earliest order: start time, then span id. */
  predicate StartsBefore(a: Span, b: Span) {
    a.startTs < b.startTs || (a.startTs == b.startTs && Less(a.spanId, b.spanId))
  }

  function LinkSum(rows: seq<Span>): nat {
    if rows == [] then 0 else LinkSum(rows[..|rows| - 1]) + rows[|rows| - 1].linkCount
  }

  ghost predicate IsMinStart(rows: seq<Span>, t: Time) {
    (exists i :: 0 <= i < |rows| && rows[i].startTs == t) && (forall i :: 0 <= i < |rows| ==> t <= rows[i].startTs)
  }

  ghost predicate IsMaxEnd(rows: seq<Span>, t: Time) {
    (exists i :: 0 <= i < |rows| && rows[i].endTs == t) && (forall i :: 0 <= i < |rows| ==> rows[i].endTs <= t)
  }

  ghost predicate IsMinIngest(rows: seq<Span>, t: Time) {
    (exists i :: 0 <= i < |rows| && rows[i].ingestedAt == t) &&
      (forall i :: 0 <= i < |rows| ==> t <= rows[i].ingestedAt)
  }

  ghost predicate IsFirstRoot(rows: seq<Span>, k: int) {
    0 <= k < |rows| && rows[k].parentSpanId == "" &&
    forall i :: 0 <= i < |rows| && i != k && rows[i].parentSpanId == "" ==> RootBefore(rows[k], rows[i])
  }

  ghost predicate IsRoot(rows: seq<Span>, root: Option<Root>) {
    match root
    case None => forall i :: 0 <= i < |rows| ==> rows[i].parentSpanId != ""
    case Some(r) => exists k :: IsFirstRoot(rows, k) && RootRow(rows[k]) == r
  }

  ghost predicate IsFirstStarted(rows: seq<Span>, k: int) {
    0 <= k < |rows| && forall i :: 0 <= i < |rows| && i != k ==> StartsBefore(rows[k], rows[i])
  }

  ghost predicate IsEarliest(rows: seq<Span>, spanId: string, hash: Hash) {
    exists k :: IsFirstStarted(rows, k) && rows[k].spanId == spanId && rows[k].resourceHash == hash
  }

  ghost predicate HasError(rows: seq<Span>) {
    exists i :: 0 <= i < |rows| && rows[i].statusCode == "Error"
  }

  /** `s` is the row the aggregation query produces for a trace whose (deduplicated) spans are `rows`. */
  ghost predicate IsAggregate(rows: seq<Span>, s: Summary) {
    && rows != []
    && (forall i :: 0 <= i < |rows| ==> rows[i].traceId == s.traceId)
    && IsMinStart(rows, s.startTs)
    && IsMaxEnd(rows, s.endTs)
    && s.spanCount == |rows|
    && s.linkCount == LinkSum(rows)
    && (s.hasError <==> HasError(rows))
    && IsMinIngest(rows, s.firstSeen)
    && IsRoot(rows, s.root)
    && IsEarliest(rows, s.earliestSpanId, s.earliestResourceHash)
  }

  /** The summary a trace with these spans should have: none without spans, else their aggregate. */
  ghost predicate IsSummaryOf(rows: seq<Span>, s: Option<Summary>, t: string) {
    (s == None <==> rows == []) && (s.Some? ==> s.value.traceId == t && IsAggregate(rows, s.value))
  }

  // ---- The aggregate depends on the set of spans only ----

  /** A span without its ingestion time: what two deliveries of the same span share. */
  function Strip(s: Span): Span { s.(ingestedAt := 0) }

  function Stripped(rows: seq<Span>): set<Span> { set s | s in rows :: Strip(s) }

  lemma StrippedHas(rows: seq<Span>, i: int)
    requires 0 <= i < |rows|
    ensures Strip(rows[i]) in Stripped(rows)
  {
    assert rows[i] in rows;
  }

  /** Some row of `b` is row `i` of `a`, ingestion time aside. */
  lemma Counterpart(a: seq<Span>, b: seq<Span>, i: int) returns (j: int)
    requires 0 <= i < |a| && Stripped(a) == Stripped(b)
    ensures 0 <= j < |b| && Strip(b[j]) == Strip(a[i])
  {
    StrippedHas(a, i);
    var s :| s in b && Strip(s) == Strip(a[i]);
    j :| 0 <= j < |b| && b[j] == s;
  }

  function Without(rows: seq<Span>, k: int): seq<Span>
    requires 0 <= k < |rows|
  {
    rows[..k] + rows[k + 1..]
  }

  lemma {:induction false} LinkSumWithout(rows: seq<Span>, k: int)
    requires 0 <= k < |rows|
    ensures LinkSum(rows) == LinkSum(Without(rows, k)) + rows[k].linkCount
  {
    var n := |rows| - 1;
    if k == n {
      assert Without(rows, k) == rows[..n];
    } else {
      LinkSumWithout(rows[..n], k);
      assert Without(rows, k)[..n - 1] == Without(rows[..n], k);
      assert Without(rows, k)[n - 1] == rows[n];
    }
  }

  lemma WithoutHas(rows: seq<Span>, k: int)
    requires 0 <= k < |rows| && UniqueKeys(rows)
    ensures UniqueKeys(Without(rows, k))
    ensures forall s :: s in Without(rows, k) <==> s in rows && s != rows[k]
  {
    var less := Without(rows, k);
    forall s | s in less
      ensures s in rows && s != rows[k]
    {
      var i :| 0 <= i < |less| && less[i] == s;
      assert s == rows[if i < k then i else i + 1];
      assert s.Key() != rows[k].Key();
    }
    forall s | s in rows && s != rows[k]
      ensures s in less
    {
      var i :| 0 <= i < |rows| && rows[i] == s;
      assert s == less[if i < k then i else i - 1];
    }
    forall i, j | 0 <= i < j < |less|
      ensures less[i].Key() != less[j].Key()
    {
      assert less[i] == rows[if i < k then i else i + 1] && less[j] == rows[if j < k then j else j + 1];
    }
  }

  lemma StrippedWithout(rows: seq<Span>, k: int)
    requires 0 <= k < |rows| && UniqueKeys(rows)
    ensures UniqueKeys(Without(rows, k))
    ensures Stripped(Without(rows, k)) == Stripped(rows) - {Strip(rows[k])}
  {
    WithoutHas(rows, k);
    assert forall s :: s in rows && Strip(s) == Strip(rows[k]) ==> s == rows[k] by {
      assert forall s: Span, r: Span :: Strip(s) == Strip(r) ==> s.Key() == r.Key();
    }
  }

  lemma {:induction false} StrippedSize(rows: seq<Span>)
    requires UniqueKeys(rows)
    ensures |Stripped(rows)| == |rows|
  {
    if rows != [] {
      var n := |rows| - 1;
      StrippedWithout(rows, n);
      StrippedHas(rows, n);
      assert Without(rows, n) == rows[..n];
      StrippedSize(rows[..n]);
    }
  }

  lemma {:induction false} LinkSumAgrees(a: seq<Span>, b: seq<Span>)
    requires UniqueKeys(a) && UniqueKeys(b) && Stripped(a) == Stripped(b)
    ensures LinkSum(a) == LinkSum(b)
    decreases |a|
  {
    if a == [] {
      if b != [] { StrippedHas(b, 0); }
    } else {
      var n := |a| - 1;
      var j := Counterpart(a, b, n);
      StrippedWithout(a, n);
      StrippedWithout(b, j);
      LinkSumWithout(a, n);
      LinkSumWithout(b, j);
      LinkSumAgrees(Without(a, n), Without(b, j));
    }
  }

  lemma RootsAgree(a: seq<Span>, b: seq<Span>, r: Option<Root>, q: Option<Root>)
    requires Stripped(a) == Stripped(b)
    requires IsRoot(a, r) && IsRoot(b, q)
    ensures r == q
  {
    match r
    case None =>
      if q.Some? {
        var k :| IsFirstRoot(b, k) && RootRow(b[k]) == q.value;
        var j := Counterpart(b, a, k);
      }
    case Some(_) =>
      var k :| IsFirstRoot(a, k) && RootRow(a[k]) == r.value;
      var j := Counterpart(a, b, k);
      assert q.Some?;
      var m :| IsFirstRoot(b, m) && RootRow(b[m]) == q.value;
      if m != j {
        var i := Counterpart(b, a, m);
        assert RootBefore(b[m], b[j]);
        if i != k { assert RootBefore(a[k], a[i]); }
        LessIsStrict(a[k].spanId, b[m].spanId);
      }
  }

  lemma EarliestAgree(a: seq<Span>, b: seq<Span>, id: string, hash: Hash, id': string, hash': Hash)
    requires Stripped(a) == Stripped(b)
    requires IsEarliest(a, id, hash) && IsEarliest(b, id', hash')
    ensures id == id' && hash == hash'
  {
    var k :| IsFirstStarted(a, k) && a[k].spanId == id && a[k].resourceHash == hash;
    var m :| IsFirstStarted(b, m) && b[m].spanId == id' && b[m].resourceHash == hash';
    var j := Counterpart(a, b, k);
    if m != j {
      var i := Counterpart(b, a, m);
      assert StartsBefore(b[m], b[j]);
      if i != k { assert StartsBefore(a[k], a[i]); }
      LessIsStrict(a[k].spanId, b[m].spanId);
    }
  }

  lemma StartsAgree(a: seq<Span>, b: seq<Span>, s: Time, t: Time)
    requires Stripped(a) == Stripped(b) && IsMinStart(a, s) && IsMinStart(b, t)
    ensures s == t
  {
    var i :| 0 <= i < |a| && a[i].startTs == s;
    var j := Counterpart(a, b, i);
    var k :| 0 <= k < |b| && b[k].startTs == t;
    var m := Counterpart(b, a, k);
  }

  lemma EndsAgree(a: seq<Span>, b: seq<Span>, s: Time, t: Time)
    requires Stripped(a) == Stripped(b) && IsMaxEnd(a, s) && IsMaxEnd(b, t)
    ensures s == t
  {
    var i :| 0 <= i < |a| && a[i].endTs == s;
    var j := Counterpart(a, b, i);
    var k :| 0 <= k < |b| && b[k].endTs == t;
    var m := Counterpart(b, a, k);
  }

  lemma ErrorsAgree(a: seq<Span>, b: seq<Span>)
    requires Stripped(a) == Stripped(b)
    ensures HasError(a) == HasError(b)
  {
    if HasError(a) {
      var e :| 0 <= e < |a| && a[e].statusCode == "Error";
      var f := Counterpart(a, b, e);
      assert b[f].statusCode == "Error";
    }
    if HasError(b) {
      var e :| 0 <= e < |b| && b[e].statusCode == "Error";
      var f := Counterpart(b, a, e);
      assert a[f].statusCode == "Error";
    }
  }

  /** Two tables holding the same spans, in any order, aggregate to the same summary, first-seen time aside. */
  lemma AggregatesAgree(a: seq<Span>, b: seq<Span>, s: Summary, t: Summary)
    requires UniqueKeys(a) && UniqueKeys(b) && Stripped(a) == Stripped(b)
    requires IsAggregate(a, s) && IsAggregate(b, t)
    ensures s.(firstSeen := 0) == t.(firstSeen := 0)
  {
    StrippedSize(a);
    StrippedSize(b);
    LinkSumAgrees(a, b);
    RootsAgree(a, b, s.root, t.root);
    EarliestAgree(a, b, s.earliestSpanId, s.earliestResourceHash, t.earliestSpanId, t.earliestResourceHash);
    StartsAgree(a, b, s.startTs, t.startTs);
    EndsAgree(a, b, s.endTs, t.endTs);
    ErrorsAgree(a, b);
    var j := Counterpart(a, b, 0);
  }

  /** The query determines its row: no two summaries aggregate the same spans. */
  lemma AggregateIsUnique(rows: seq<Span>, s: Summary, t: Summary)
    requires IsAggregate(rows, s) && IsAggregate(rows, t)
    ensures s == t
  {
    RootsAgree(rows, rows, s.root, t.root);
    EarliestAgree(rows, rows, s.earliestSpanId, s.earliestResourceHash, t.earliestSpanId, t.earliestResourceHash);
    StartsAgree(rows, rows, s.startTs, t.startTs);
    EndsAgree(rows, rows, s.endTs, t.endTs);
    assert rows[0].traceId == s.traceId == t.traceId;
    var i :| 0 <= i < |rows| && rows[i].ingestedAt == s.firstSeen;
    var j :| 0 <= j < |rows| && rows[j].ingestedAt == t.firstSeen;
  }

  // ---- The incremental merge ----

  function Min(a: int, b: int): int { if b < a then b else a }
  function Max(a: int, b: int): int { if b > a then b else a }

  function MergedRoot(root: Option<Root>, row: SpanRow): Option<Root> {
    var d := row.endTs - row.startTs;
    if row.parentSpanId == "" &&
       (root.None? || d > root.value.Duration() || (d == root.value.Duration() && Less(row.spanId, root.value.spanId)))
    then Some(RootRow(Stored(row, 0)))
    else root
  }

  /** The summary after one more span; `None` is a trace without a summary. */
  function Merged(before: Option<Summary>, row: SpanRow, ingestedAt: Time): Summary {
    match before
    case None =>
      Summary(row.traceId, row.startTs, row.endTs, 1, |row.links|, row.statusCode == "Error", ingestedAt,
              MergedRoot(None, row), row.spanId, row.resourceHash)
    case Some(s) =>
      var earlier := row.startTs < s.startTs || (row.startTs == s.startTs && Less(row.spanId, s.earliestSpanId));
      Summary(s.traceId, Min(s.startTs, row.startTs), Max(s.endTs, row.endTs), s.spanCount + 1,
              s.linkCount + |row.links|, s.hasError || row.statusCode == "Error", Min(s.firstSeen, ingestedAt),
              MergedRoot(s.root, row),
              if earlier then row.spanId else s.earliestSpanId,
              if earlier then row.resourceHash else s.earliestResourceHash)
  }

  lemma MergeKeepsRoot(rows: seq<Span>, root: Option<Root>, row: SpanRow, at: Time)
    requires forall i :: 0 <= i < |rows| ==> rows[i].spanId != row.spanId
    requires IsRoot(rows, root)
    ensures IsRoot(rows + [Stored(row, at)], MergedRoot(root, row))
  {
    var n := |rows|;
    var all := rows + [Stored(row, at)];
    if root.None? {
      if row.parentSpanId == "" { assert IsFirstRoot(all, n); }
    } else {
      var k :| IsFirstRoot(rows, k) && RootRow(rows[k]) == root.value;
      LessIsStrict(row.spanId, rows[k].spanId);
      if MergedRoot(root, row) == root {
        assert IsFirstRoot(all, k);
      } else {
        forall i | 0 <= i < n && rows[i].parentSpanId == ""
          ensures RootBefore(all[n], rows[i])
        {
          if i != k && all[n].Duration() == rows[k].Duration() == rows[i].Duration() {
            LessIsTransitive(row.spanId, rows[k].spanId, rows[i].spanId);
          }
        }
        assert IsFirstRoot(all, n);
      }
    }
  }

  lemma MergeKeepsEarliest(rows: seq<Span>, s: Summary, row: SpanRow, at: Time)
    requires forall i :: 0 <= i < |rows| ==> rows[i].spanId != row.spanId
    requires IsMinStart(rows, s.startTs) && IsEarliest(rows, s.earliestSpanId, s.earliestResourceHash)
    ensures IsEarliest(rows + [Stored(row, at)], Merged(Some(s), row, at).earliestSpanId,
                       Merged(Some(s), row, at).earliestResourceHash)
  {
    var n := |rows|;
    var all := rows + [Stored(row, at)];
    var k :| IsFirstStarted(rows, k) && rows[k].spanId == s.earliestSpanId &&
      rows[k].resourceHash == s.earliestResourceHash;
    var m :| 0 <= m < n && rows[m].startTs == s.startTs;
    assert rows[k].startTs == s.startTs;
    LessIsStrict(row.spanId, rows[k].spanId);
    if StartsBefore(all[n], rows[k]) {
      forall i | 0 <= i < n
        ensures StartsBefore(all[n], rows[i])
      {
        if i != k && row.startTs == rows[k].startTs == rows[i].startTs {
          LessIsTransitive(row.spanId, rows[k].spanId, rows[i].spanId);
        }
      }
      assert IsFirstStarted(all, n);
    } else {
      assert IsFirstStarted(all, k);
    }
  }

  lemma MergeKeepsBounds(rows: seq<Span>, s: Summary, row: SpanRow, at: Time)
    requires IsMinStart(rows, s.startTs) && IsMaxEnd(rows, s.endTs) && IsMinIngest(rows, s.firstSeen)
    ensures var all, m := rows + [Stored(row, at)], Merged(Some(s), row, at);
            IsMinStart(all, m.startTs) && IsMaxEnd(all, m.endTs) && IsMinIngest(all, m.firstSeen)
  {
    var all := rows + [Stored(row, at)];
    assert all[|rows|] == Stored(row, at);
    var i :| 0 <= i < |rows| && rows[i].startTs == s.startTs;
    assert all[i] == rows[i];
    var j :| 0 <= j < |rows| && rows[j].endTs == s.endTs;
    assert all[j] == rows[j];
    var k :| 0 <= k < |rows| && rows[k].ingestedAt == s.firstSeen;
    assert all[k] == rows[k];
  }

  /** Merging one new span keeps a summary equal to the full aggregation. */
  lemma MergeKeepsAggregate(rows: seq<Span>, s: Summary, row: SpanRow, at: Time)
    requires IsAggregate(rows, s) && row.traceId == s.traceId
    requires forall i :: 0 <= i < |rows| ==> rows[i].spanId != row.spanId
    ensures IsAggregate(rows + [Stored(row, at)], Merged(Some(s), row, at))
  {
    var all := rows + [Stored(row, at)];
    MergeKeepsRoot(rows, s.root, row, at);
    MergeKeepsEarliest(rows, s, row, at);
    MergeKeepsBounds(rows, s, row, at);
    assert all[..|all| - 1] == rows;
    if s.hasError {
      var e :| 0 <= e < |rows| && rows[e].statusCode == "Error";
      assert all[e].statusCode == "Error";
    }
    assert all[|rows|].statusCode == row.statusCode;
  }

  /** A first span on its own aggregates to the summary it starts. */
  lemma MergeStartsAggregate(row: SpanRow, at: Time)
    ensures IsAggregate([Stored(row, at)], Merged(None, row, at))
  {
    var one := [Stored(row, at)];
    assert one[..0] == [] && LinkSum(one) == LinkSum(one[..0]) + |row.links|;
    assert one[0].startTs == row.startTs && one[0].endTs == row.endTs && one[0].ingestedAt == at;
    if row.parentSpanId == "" { assert IsFirstRoot(one, 0); }
    assert IsFirstStarted(one, 0);
  }

  /** Either way, merging one new span of the trace keeps its summary exact. */
  lemma MergeKeepsSummary(rows: seq<Span>, s: Option<Summary>, row: SpanRow, at: Time)
    requires IsSummaryOf(rows, s, row.traceId) && UniqueKeys(rows + [Stored(row, at)])
    ensures IsSummaryOf(rows + [Stored(row, at)], Some(Merged(s, row, at)), row.traceId)
  {
    var all := rows + [Stored(row, at)];
    match s
    case None =>
      MergeStartsAggregate(row, at);
      assert all == [Stored(row, at)];
    case Some(before) =>
      forall i | 0 <= i < |rows|
        ensures rows[i].spanId != row.spanId
      {
        assert all[i].Key() != all[|rows|].Key();
        assert rows[i].traceId == before.traceId;
      }
      MergeKeepsAggregate(rows, before, row, at);
  }

  // ---- The rebuild query ----

  /** Another row of the same key was ingested before this one, or stands before it when both came at once. */
  predicate IsRepeat(rows: seq<Span>, n: nat)
    requires n < |rows|
  {
    exists j :: 0 <= j < |rows| && j != n && rows[j].Key() == rows[n].Key() &&
      (rows[j].ingestedAt < rows[n].ingestedAt || (rows[j].ingestedAt == rows[n].ingestedAt && j < n))
  }

  /** `row_number() OVER (PARTITION BY trace_id, span_id ORDER BY ingested_at) = 1`, among the rows from `n` on. */
  function DedupedFrom(rows: seq<Span>, n: nat): seq<Span>
    requires n <= |rows|
    decreases |rows| - n
  {
    if n == |rows| then []
    else if IsRepeat(rows, n) then DedupedFrom(rows, n + 1)
    else [rows[n]] + DedupedFrom(rows, n + 1)
  }

  lemma {:induction false} DedupedFromUnique(rows: seq<Span>, n: nat)
    requires n <= |rows| && UniqueKeys(rows)
    ensures DedupedFrom(rows, n) == rows[n..]
    decreases |rows| - n
  {
    if n < |rows| {
      DedupedFromUnique(rows, n + 1);
      assert forall j :: 0 <= j < |rows| && j != n ==> rows[j].Key() != rows[n].Key();
    }
  }

  /** `kept` is `rows` without repeated keys, of each key a row ingested no later than the others. */
  ghost predicate IsDeduplicated(rows: seq<Span>, kept: seq<Span>) {
    && UniqueKeys(kept)
    && (forall s :: s in kept ==> s in rows)
    && (forall s :: s in rows ==> exists k :: k in kept && k.Key() == s.Key() && k.ingestedAt <= s.ingestedAt)
  }

  lemma OneIsRepeat(rows: seq<Span>, n: nat, i: nat)
    requires n < i < |rows| && rows[i].Key() == rows[n].Key()
    ensures IsRepeat(rows, n) || IsRepeat(rows, i)
  {
  }

  lemma {:induction false} DedupedFromHas(rows: seq<Span>, n: nat)
    requires n <= |rows|
    ensures forall i :: n <= i < |rows| && !IsRepeat(rows, i) ==> rows[i] in DedupedFrom(rows, n)
    ensures forall s :: s in DedupedFrom(rows, n) ==> exists i :: n <= i < |rows| && !IsRepeat(rows, i) && rows[i] == s
    decreases |rows| - n
  {
    hide IsRepeat;
    if n < |rows| { DedupedFromHas(rows, n + 1); }
  }

  lemma {:induction false} DedupedFromDistinct(rows: seq<Span>, n: nat)
    requires n <= |rows|
    ensures UniqueKeys(DedupedFrom(rows, n))
    decreases |rows| - n
  {
    hide IsRepeat;
    if n < |rows| {
      DedupedFromDistinct(rows, n + 1);
      DedupedFromHas(rows, n + 1);
      var rest := DedupedFrom(rows, n + 1);
      if !IsRepeat(rows, n) {
        forall k | 0 <= k < |rest| ensures rest[k].Key() != rows[n].Key() {
          assert rest[k] in rest;
          var i :| n + 1 <= i < |rows| && !IsRepeat(rows, i) && rows[i] == rest[k];
          if rows[i].Key() == rows[n].Key() { OneIsRepeat(rows, n, i); }
        }
      }
    }
  }

  /** Of the rows with a key, one is no repeat, and it came no later than any given one. */
  lemma {:induction false} FirstOfKey(rows: seq<Span>, i: nat, n: nat) returns (k: nat)
    requires i < |rows| && n <= |rows|
    ensures k < |rows| && rows[k].Key() == rows[i].Key() && rows[k].ingestedAt <= rows[i].ingestedAt
    ensures forall j :: 0 <= j < n && rows[j].Key() == rows[i].Key() && j != k ==>
      rows[k].ingestedAt < rows[j].ingestedAt || (rows[k].ingestedAt == rows[j].ingestedAt && k <= j)
    ensures rows[k].ingestedAt < rows[i].ingestedAt || k <= i
  {
    if n == 0 {
      k := i;
    } else {
      k := FirstOfKey(rows, i, n - 1);
      var j := n - 1;
      if rows[j].Key() == rows[i].Key() &&
         (rows[j].ingestedAt < rows[k].ingestedAt || (rows[j].ingestedAt == rows[k].ingestedAt && j < k)) {
        k := j;
      }
    }
  }

  lemma DedupedIsDeduplicated(rows: seq<Span>)
    ensures IsDeduplicated(rows, DedupedFrom(rows, 0))
  {
    DedupedFromHas(rows, 0);
    DedupedFromDistinct(rows, 0);
    forall s | s in rows
      ensures exists k :: k in DedupedFrom(rows, 0) && k.Key() == s.Key() && k.ingestedAt <= s.ingestedAt
    {
      var i :| 0 <= i < |rows| && rows[i] == s;
      var k := FirstOfKey(rows, i, |rows|);
      assert !IsRepeat(rows, k);
      assert rows[k] in DedupedFrom(rows, 0);
    }
  }

  function MinStart(rows: seq<Span>): Time
    requires rows != []
  {
    if |rows| == 1 then rows[0].startTs else Min(rows[0].startTs, MinStart(rows[1..]))
  }

  function MaxEnd(rows: seq<Span>): Time
    requires rows != []
  {
    if |rows| == 1 then rows[0].endTs else Max(rows[0].endTs, MaxEnd(rows[1..]))
  }

  function MinIngest(rows: seq<Span>): Time
    requires rows != []
  {
    if |rows| == 1 then rows[0].ingestedAt else Min(rows[0].ingestedAt, MinIngest(rows[1..]))
  }

  /** Position of `row_number() OVER (ORDER BY (end_ts - start_ts) DESC, span_id) = 1` among the parentless rows. */
  function LongestRoot(rows: seq<Span>): Option<nat> {
    if rows == [] then None
    else
      match LongestRoot(rows[1..])
      case None => if rows[0].parentSpanId == "" then Some(0) else None
      case Some(k) =>
        if k + 1 < |rows| && !(rows[0].parentSpanId == "" && RootBefore(rows[0], rows[k + 1])) then Some(k + 1)
        else Some(0)
  }

  /** Position of `row_number() OVER (ORDER BY start_ts, span_id) = 1`. */
  function FirstStarted(rows: seq<Span>): nat
    requires rows != []
  {
    if |rows| == 1 then 0
    else
      var k := FirstStarted(rows[1..]) + 1;
      if k < |rows| && !StartsBefore(rows[0], rows[k]) then k else 0
  }

  /** The row the rebuild query inserts for one affected trace. */
  function Rebuilt(rows: seq<Span>): Summary
    requires rows != []
  {
    var root := LongestRoot(rows);
    var first := FirstStarted(rows);
    Summary(rows[0].traceId, MinStart(rows), MaxEnd(rows), |rows|, LinkSum(rows),
            exists i :: 0 <= i < |rows| && rows[i].statusCode == "Error", MinIngest(rows),
            if root.Some? && root.value < |rows| then Some(RootRow(rows[root.value])) else None,
            if first < |rows| then rows[first].spanId else "",
            if first < |rows| then rows[first].resourceHash else 0)
  }

  lemma {:induction false} RebuiltStart(rows: seq<Span>)
    requires rows != []
    ensures IsMinStart(rows, MinStart(rows))
  {
    if |rows| > 1 {
      var rest := rows[1..];
      RebuiltStart(rest);
      assert forall i :: 1 <= i < |rows| ==> rows[i] == rest[i - 1];
      var a :| 0 <= a < |rest| && rest[a].startTs == MinStart(rest);
      assert rows[a + 1] == rest[a];
    }
    assert rows[0].startTs >= MinStart(rows);
  }

  lemma {:induction false} RebuiltEnd(rows: seq<Span>)
    requires rows != []
    ensures IsMaxEnd(rows, MaxEnd(rows))
  {
    if |rows| > 1 {
      var rest := rows[1..];
      RebuiltEnd(rest);
      assert forall i :: 1 <= i < |rows| ==> rows[i] == rest[i - 1];
      var b :| 0 <= b < |rest| && rest[b].endTs == MaxEnd(rest);
      assert rows[b + 1] == rest[b];
    }
    assert rows[0].endTs <= MaxEnd(rows);
  }

  lemma {:induction false} RebuiltSeen(rows: seq<Span>)
    requires rows != []
    ensures IsMinIngest(rows, MinIngest(rows))
  {
    if |rows| > 1 {
      var rest := rows[1..];
      RebuiltSeen(rest);
      assert forall i :: 1 <= i < |rows| ==> rows[i] == rest[i - 1];
      var c :| 0 <= c < |rest| && rest[c].ingestedAt == MinIngest(rest);
      assert rows[c + 1] == rest[c];
    }
    assert rows[0].ingestedAt >= MinIngest(rows);
  }

  lemma {:induction false} RebuiltRoot(rows: seq<Span>)
    requires forall i, j :: 0 <= i < j < |rows| ==> rows[i].spanId != rows[j].spanId
    ensures LongestRoot(rows).None? ==> IsRoot(rows, None)
    ensures LongestRoot(rows).Some? ==> IsFirstRoot(rows, LongestRoot(rows).value)
  {
    if rows != [] {
      var rest := rows[1..];
      assert forall i :: 1 <= i < |rows| ==> rows[i] == rest[i - 1];
      RebuiltRoot(rest);
      if LongestRoot(rest).Some? {
        var k := LongestRoot(rest).value + 1;
        LessIsStrict(rows[0].spanId, rows[k].spanId);
        forall i | 1 <= i < |rows| && i != k && rows[i].parentSpanId == ""
          ensures RootBefore(rows[0], rows[k]) ==> RootBefore(rows[0], rows[i])
          ensures RootBefore(rows[k], rows[i])
        {
          assert RootBefore(rest[k - 1], rest[i - 1]);
          if Less(rows[0].spanId, rows[k].spanId) && Less(rows[k].spanId, rows[i].spanId) {
            LessIsTransitive(rows[0].spanId, rows[k].spanId, rows[i].spanId);
          }
        }
      }
    }
  }

  lemma {:induction false} RebuiltEarliest(rows: seq<Span>)
    requires rows != []
    requires forall i, j :: 0 <= i < j < |rows| ==> rows[i].spanId != rows[j].spanId
    ensures IsFirstStarted(rows, FirstStarted(rows))
  {
    if |rows| > 1 {
      var rest := rows[1..];
      assert forall i :: 1 <= i < |rows| ==> rows[i] == rest[i - 1];
      RebuiltEarliest(rest);
      var k := FirstStarted(rest) + 1;
      LessIsStrict(rows[0].spanId, rows[k].spanId);
      forall i | 1 <= i < |rows| && i != k
        ensures StartsBefore(rows[0], rows[k]) ==> StartsBefore(rows[0], rows[i])
        ensures StartsBefore(rows[k], rows[i])
      {
        assert StartsBefore(rest[k - 1], rest[i - 1]);
        if Less(rows[0].spanId, rows[k].spanId) && Less(rows[k].spanId, rows[i].spanId) {
          LessIsTransitive(rows[0].spanId, rows[k].spanId, rows[i].spanId);
        }
      }
    }
  }

  lemma KeptOfTrace(rows: seq<Span>, kept: seq<Span>, t: string)
    requires IsDeduplicated(rows, kept) && forall i :: 0 <= i < |rows| ==> rows[i].traceId == t
    ensures UniqueKeys(kept) && (kept == [] <==> rows == [])
    ensures forall i :: 0 <= i < |kept| ==> kept[i].traceId == t
  {
    hide UniqueKeys;
    forall i | 0 <= i < |kept| ensures kept[i].traceId == t {
      assert kept[i] in kept;
    }
    if rows != [] { assert rows[0] in rows; }
    if kept != [] { assert kept[0] in rows; }
  }

  lemma RebuiltAggregates(rows: seq<Span>)
    requires rows != [] && UniqueKeys(rows)
    requires forall i :: 0 <= i < |rows| ==> rows[i].traceId == rows[0].traceId
    ensures IsAggregate(rows, Rebuilt(rows))
  {
    forall i, j | 0 <= i < j < |rows|
      ensures rows[i].spanId != rows[j].spanId
    {
      assert rows[i].Key() != rows[j].Key();
    }
    RebuiltStart(rows);
    RebuiltEnd(rows);
    RebuiltSeen(rows);
    RebuiltRoot(rows);
    RebuiltEarliest(rows);
  }

  /** The rebuild query aggregates the deduplicated rows of a trace, repeated keys or not. */
  lemma RebuiltIsAggregate(rows: seq<Span>)
    requires rows != [] && forall i :: 0 <= i < |rows| ==> rows[i].traceId == rows[0].traceId
    ensures var kept := DedupedFrom(rows, 0);
      kept != [] && IsDeduplicated(rows, kept) && IsAggregate(kept, Rebuilt(kept))
    ensures UniqueKeys(rows) ==> DedupedFrom(rows, 0) == rows
  {
    hide DedupedFrom, IsAggregate, Rebuilt, UniqueKeys, IsDeduplicated;
    var kept := DedupedFrom(rows, 0);
    DedupedIsDeduplicated(rows);
    if UniqueKeys(rows) { DedupedFromUnique(rows, 0); }
    KeptOfTrace(rows, kept, rows[0].traceId);
    RebuiltAggregates(kept);
  }
}
