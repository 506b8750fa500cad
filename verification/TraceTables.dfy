// How one trace write and one retention delete change the trace tables, and that both keep them consistent.
module TraceTables {
  import opened Filters
  import opened Order
  import opened Rows
  import opened TraceSummary
  import opened SummaryState
  import opened Database

  // ---- Deduplication ----

  /** The rows a batch adds: the first of each key, unless the key is already stored. */
  function NewRows(known: set<(string, string)>, rows: seq<SpanRow>): seq<SpanRow> {
    if rows == [] then []
    else
      var n := |rows| - 1;
      var before := NewRows(known, rows[..n]);
      var key := RowKey(rows[n]);
      if key in known || key in RowKeys(before) then before else before + [rows[n]]
  }

  function RowKey(r: SpanRow): (string, string) { (r.traceId, r.spanId) }

  /** One step of the deduplication. */
  lemma NewRowsStep(known: set<(string, string)>, rows: seq<SpanRow>, n: nat)
    requires n < |rows|
    ensures NewRows(known, rows[..n + 1]) ==
      if RowKey(rows[n]) in known + RowKeys(NewRows(known, rows[..n])) then NewRows(known, rows[..n])
      else NewRows(known, rows[..n]) + [rows[n]]
  {
    assert rows[..n + 1][..n] == rows[..n];
  }

  lemma {:induction false} NewRowsAreNew(known: set<(string, string)>, rows: seq<SpanRow>)
    ensures UniqueRows(NewRows(known, rows))
    ensures forall i :: 0 <= i < |NewRows(known, rows)| ==> RowKey(NewRows(known, rows)[i]) !in known
  {
    if rows != [] {
      var n := |rows| - 1;
      NewRowsAreNew(known, rows[..n]);
      var before := NewRows(known, rows[..n]);
      assert forall i :: 0 <= i < |before| ==> before[i] in before;
    }
  }

  lemma {:induction false} NewRowsAreRows(known: set<(string, string)>, rows: seq<SpanRow>)
    ensures forall i :: 0 <= i < |NewRows(known, rows)| ==> NewRows(known, rows)[i] in rows
  {
    if rows != [] {
      var n := |rows| - 1;
      NewRowsAreRows(known, rows[..n]);
      assert rows == rows[..n] + [rows[n]];
    }
  }

  lemma {:induction false} NewRowsCover(known: set<(string, string)>, rows: seq<SpanRow>)
    ensures forall i :: 0 <= i < |rows| ==> RowKey(rows[i]) in known + RowKeys(NewRows(known, rows))
  {
    if rows != [] {
      var n := |rows| - 1;
      NewRowsCover(known, rows[..n]);
      var before := NewRows(known, rows[..n]);
      assert rows[n] in before + [rows[n]];
      assert forall k :: k in RowKeys(before) ==> k in RowKeys(before + [rows[n]]);
      assert forall i :: 0 <= i < n ==> rows[..n][i] == rows[i];
    }
  }

  // ---- One trace write ----

  function SpansAppended(d: Tables, rows: seq<SpanRow>, at: Time): seq<Span> { d.spans + StoredAll(rows, at) }

  /** The traces a write pushes over the limit. */
  ghost predicate IsOver(d: Tables, rows: seq<SpanRow>, at: Time, t: string) {
    RowsOf(rows, t) != [] && |SpansOf(SpansAppended(d, rows, at), t)| > MAX_SPANS_PER_TRACE
  }

  /** `after` is `d` with `rows` added: over-limit traces are deleted and tombstoned, other touched summaries merged. */
  ghost predicate TraceWritten(d: Tables, rows: seq<SpanRow>, at: Time, over: set<string>, after: Tables) {
    && (forall t :: t in over <==> IsOver(d, rows, at, t))
    && after.spans == Filter(SpansAppended(d, rows, at), NotInTraces(over))
    && after.links == Filter(d.links + AllLinks(rows), NotFromTraces(over))
    && (forall t :: FindSummary(after.summaries, t) ==
          if t in over then None else Folded(FindSummary(d.summaries, t), RowsOf(rows, t), at))
    && after.dropped.Keys == d.dropped.Keys + over
    && (forall t :: t in over ==> after.dropped[t] == Tombstone(at, |SpansOf(SpansAppended(d, rows, at), t)|))
    && (forall t :: t in d.dropped && t !in over ==> after.dropped[t] == d.dropped[t])
  }

  /** What deduplication and the tombstone filter guarantee about the rows that are written. */
  ghost predicate Writable(d: Tables, rows: seq<SpanRow>) {
    && UniqueRows(rows)
    && (forall i :: 0 <= i < |rows| ==> RowKey(rows[i]) !in KeysOf(d.spans))
    && (forall i :: 0 <= i < |rows| ==> rows[i].traceId !in d.dropped)
  }

  // ---- What a trace batch leaves in the tables ----

  /** No stored span and no earlier row of the batch has this row's ids. */
  ghost predicate IsFresh(d: Tables, rows: seq<SpanRow>, i: nat) {
    && i < |rows|
    && (forall s :: s in d.spans ==> !(s.traceId == rows[i].traceId && s.spanId == rows[i].spanId))
    && (forall j :: 0 <= j < i ==> !(rows[j].traceId == rows[i].traceId && rows[j].spanId == rows[i].spanId))
  }

  /** Fresh rows are stored column by column, stored spans stay, dropped traces are gone, and there is nothing else. */
  ghost predicate StoresSpans(d: Tables, rows: seq<SpanRow>, at: Time, over: set<string>, after: Tables) {
    && UniqueKeys(after.spans)
    && (forall s :: s in after.spans ==> s.traceId !in over)
    && (forall s :: s in d.spans && s.traceId !in over ==> s in after.spans)
    && (forall i :: 0 <= i < |rows| && IsFresh(d, rows, i) && rows[i].traceId !in over ==>
          exists s :: s in after.spans && Records(s, rows[i], at))
    && (forall s :: s in after.spans && s !in d.spans ==>
          exists i :: 0 <= i < |rows| && IsFresh(d, rows, i) && Records(s, rows[i], at))
  }

  ghost predicate IsLinkOf(l: SpanLink, row: SpanRow) { exists k :: 0 <= k < |row.links| && RecordsLink(l, row, k) }

  /** The same of links, numbered from zero per span. */
  ghost predicate StoresLinks(d: Tables, rows: seq<SpanRow>, over: set<string>, after: Tables) {
    && (forall l :: l in after.links ==> l.sourceTraceId !in over)
    && (forall l :: l in d.links && l.sourceTraceId !in over ==> l in after.links)
    && (forall i, l :: 0 <= i < |rows| && IsFresh(d, rows, i) && rows[i].traceId !in over && IsLinkOf(l, rows[i]) ==>
          l in after.links)
    && (forall l :: l in after.links && l !in d.links ==>
          exists i :: 0 <= i < |rows| && IsFresh(d, rows, i) && IsLinkOf(l, rows[i]))
  }

  ghost predicate HasFresh(d: Tables, rows: seq<SpanRow>, t: string) {
    exists i :: 0 <= i < |rows| && IsFresh(d, rows, i) && rows[i].traceId == t
  }

  /** The span ids of a trace, stored or arriving. */
  function SpanIds(d: Tables, rows: seq<SpanRow>, t: string): set<string> {
    (set s | s in d.spans && s.traceId == t :: s.spanId) + (set r | r in rows && r.traceId == t :: r.spanId)
  }

  /** Dropped are the traces a fresh row takes beyond 10,000 spans; each leaves a tombstone with its count. */
  ghost predicate DropsTraces(d: Tables, rows: seq<SpanRow>, at: Time, over: set<string>, after: Tables) {
    && (forall t :: t in over <==> HasFresh(d, rows, t) && |SpanIds(d, rows, t)| > 10_000)
    && (forall t :: t in over ==>
          t in after.dropped && after.dropped[t].lastSeen == at && after.dropped[t].spanCount == |SpanIds(d, rows, t)|)
    && (forall t :: t !in over ==> (t in after.dropped <==> t in d.dropped))
    && (forall t :: t in d.dropped && t !in over ==> after.dropped[t] == d.dropped[t])
  }

  /** Some row of the batch that is fresh. */
  ghost predicate IsFreshRow(d: Tables, rows: seq<SpanRow>, r: SpanRow) {
    exists i :: 0 <= i < |rows| && IsFresh(d, rows, i) && rows[i] == r
  }

  lemma {:induction false} NewRowsAreFresh(d: Tables, rows: seq<SpanRow>)
    ensures forall r :: r in NewRows(KeysOf(d.spans), rows) <==> IsFreshRow(d, rows, r)
  {
    hide IsFreshRow;
    if rows == [] {
      forall r ensures !IsFreshRow(d, [], r) { NoFreshRow(d, r); }
    } else {
      var n := |rows| - 1;
      NewRowsAreFresh(d, rows[..n]);
      LastIsFresh(d, rows);
      forall r
        ensures IsFreshRow(d, rows, r) <==> IsFreshRow(d, rows[..n], r) || (r == rows[n] && IsFresh(d, rows, n))
      {
        OneMoreFresh(d, rows, r);
      }
      hide IsFresh;
    }
  }

  lemma NoFreshRow(d: Tables, r: SpanRow)
    ensures !IsFreshRow(d, [], r)
  {
  }

  lemma OneMoreFresh(d: Tables, rows: seq<SpanRow>, r: SpanRow)
    requires rows != []
    ensures var n := |rows| - 1;
      IsFreshRow(d, rows, r) <==> IsFreshRow(d, rows[..n], r) || (r == rows[n] && IsFresh(d, rows, n))
  {
    var n := |rows| - 1;
    forall i: nat | i < n ensures IsFresh(d, rows, i) <==> IsFresh(d, rows[..n], i) { FreshBefore(d, rows, i); }
    hide IsFresh;
    assert forall i: nat :: i < n ==> rows[..n][i] == rows[i];
  }

  lemma FreshBefore(d: Tables, rows: seq<SpanRow>, i: nat)
    requires i + 1 < |rows|
    ensures IsFresh(d, rows, i) <==> IsFresh(d, rows[..|rows| - 1], i)
  {
    var less := rows[..|rows| - 1];
    assert forall j :: 0 <= j <= i ==> less[j] == rows[j];
  }

  lemma LastIsFresh(d: Tables, rows: seq<SpanRow>)
    requires rows != []
    ensures var n, known := |rows| - 1, KeysOf(d.spans);
      IsFresh(d, rows, n) <==> RowKey(rows[n]) !in known && RowKey(rows[n]) !in RowKeys(NewRows(known, rows[..n]))
  {
    var n, known := |rows| - 1, KeysOf(d.spans);
    var less := rows[..n];
    NewRowsCover(known, less);
    NewRowsAreRows(known, less);
    hide NewRows;
    if RowKey(rows[n]) in RowKeys(NewRows(known, less)) {
      var r :| r in NewRows(known, less) && (r.traceId, r.spanId) == RowKey(rows[n]);
      var j :| 0 <= j < |NewRows(known, less)| && NewRows(known, less)[j] == r;
      var k :| 0 <= k < n && less[k] == r;
      assert rows[k] == r;
    }
    if RowKey(rows[n]) !in known && !IsFresh(d, rows, n) {
      assert forall s :: s in d.spans ==> s.Key() in known;
      var j :| 0 <= j < n && rows[j].traceId == rows[n].traceId && rows[j].spanId == rows[n].spanId;
      assert less[j] == rows[j];
    }
  }

  lemma {:induction false} AllLinksAre(rows: seq<SpanRow>)
    ensures forall l :: l in AllLinks(rows) <==> exists r :: r in rows && IsLinkOf(l, r)
  {
    hide IsLinkOf;
    if rows != [] {
      var n := |rows| - 1;
      AllLinksAre(rows[..n]);
      LinksForAre(rows[n]);
      assert rows == rows[..n] + [rows[n]];
    }
  }

  lemma LinksForAre(row: SpanRow)
    ensures forall l :: l in LinksFor(row) <==> IsLinkOf(l, row)
  {
    forall l | IsLinkOf(l, row) ensures l in LinksFor(row) {
      var k :| 0 <= k < |row.links| && RecordsLink(l, row, k);
      assert LinksFor(row)[k] == l;
    }
    forall l | l in LinksFor(row) ensures IsLinkOf(l, row) {
      var k :| 0 <= k < |row.links| && LinksFor(row)[k] == l;
      assert RecordsLink(l, row, k);
    }
  }

  lemma StoredRecords(row: SpanRow, at: Time)
    ensures Records(Stored(row, at), row, at)
  {
  }

  lemma AppendedHas(d: Tables, rows: seq<SpanRow>, at: Time)
    ensures forall s :: s in d.spans ==> s in SpansAppended(d, rows, at)
    ensures forall r :: r in rows ==> Stored(r, at) in SpansAppended(d, rows, at)
    ensures forall s :: s in SpansAppended(d, rows, at) && s !in d.spans ==> exists r :: r in rows && s == Stored(r, at)
  {
    var all := SpansAppended(d, rows, at);
    forall r | r in rows ensures Stored(r, at) in all {
      var k :| 0 <= k < |rows| && rows[k] == r;
      assert all[|d.spans| + k] == Stored(r, at);
    }
    forall s | s in all && s !in d.spans ensures exists r :: r in rows && s == Stored(r, at) {
      var m :| 0 <= m < |all| && all[m] == s;
      assert rows[m - |d.spans|] in rows;
    }
  }

  lemma WrittenIsUnique(d: Tables, rows: seq<SpanRow>, at: Time, over: set<string>, after: Tables)
    requires UniqueKeys(d.spans) && Writable(d, rows) && TraceWritten(d, rows, at, over, after)
    ensures UniqueKeys(after.spans)
  {
    AppendedUnique(d, rows, at);
    FilterUnique(SpansAppended(d, rows, at), NotInTraces(over));
  }

  lemma StoredIsOfTrace(row: SpanRow, at: Time)
    ensures Stored(row, at).traceId == row.traceId
  {
  }

  lemma SpansAreStored(d: Tables, rows: seq<SpanRow>, at: Time, over: set<string>, after: Tables)
    requires UniqueKeys(d.spans) && TraceWritten(d, NewRows(KeysOf(d.spans), rows), at, over, after)
    requires Writable(d, NewRows(KeysOf(d.spans), rows))
    ensures StoresSpans(d, rows, at, over, after)
  {
    hide Filter, NewRows, IsFresh, UniqueKeys, TraceWritten, Writable, SpansAppended, Stored, Records, RowKeys;
    var added := NewRows(KeysOf(d.spans), rows);
    WrittenIsUnique(d, added, at, over, after);
    WrittenSpans(d, added, at, over, after);
    FilterHas(SpansAppended(d, added, at), NotInTraces(over));
    AppendedHas(d, added, at);
    NewRowsAreFresh(d, rows);
    forall i | 0 <= i < |rows| && IsFresh(d, rows, i) && rows[i].traceId !in over
      ensures exists s :: s in after.spans && Records(s, rows[i], at)
    {
      StoredRecords(rows[i], at);
      StoredIsOfTrace(rows[i], at);
      assert Stored(rows[i], at) in after.spans;
    }
    forall s | s in after.spans && s !in d.spans
      ensures exists i :: 0 <= i < |rows| && IsFresh(d, rows, i) && Records(s, rows[i], at)
    {
      var r :| r in added && s == Stored(r, at);
      var i :| 0 <= i < |rows| && IsFresh(d, rows, i) && rows[i] == r;
      StoredRecords(r, at);
    }
  }

  lemma WrittenSpans(d: Tables, rows: seq<SpanRow>, at: Time, over: set<string>, after: Tables)
    requires TraceWritten(d, rows, at, over, after)
    ensures after.spans == Filter(SpansAppended(d, rows, at), NotInTraces(over))
    ensures after.links == Filter(d.links + AllLinks(rows), NotFromTraces(over))
  {
  }

  lemma FreshIsRow(d: Tables, rows: seq<SpanRow>, i: nat)
    requires IsFresh(d, rows, i)
    ensures i < |rows|
  {
  }

  lemma LinksAreStored(d: Tables, rows: seq<SpanRow>, at: Time, over: set<string>, after: Tables)
    requires TraceWritten(d, NewRows(KeysOf(d.spans), rows), at, over, after)
    ensures StoresLinks(d, rows, over, after)
  {
    hide Filter, NewRows, IsFresh, TraceWritten, AllLinks, IsLinkOf;
    var added := NewRows(KeysOf(d.spans), rows);
    WrittenSpans(d, added, at, over, after);
    FilterHas(d.links + AllLinks(added), NotFromTraces(over));
    AllLinksAre(added);
    NewRowsAreFresh(d, rows);
    forall i, l | 0 <= i < |rows| && IsFresh(d, rows, i) && rows[i].traceId !in over && IsLinkOf(l, rows[i])
      ensures l in after.links
    {
      LinkIsOfSpan(l, rows[i]);
      assert rows[i] in added;
    }
    forall l | l in after.links && l !in d.links
      ensures exists i :: 0 <= i < |rows| && IsFresh(d, rows, i) && IsLinkOf(l, rows[i])
    {
      var r :| r in added && IsLinkOf(l, r);
      var i :| 0 <= i < |rows| && IsFresh(d, rows, i) && rows[i] == r;
    }
  }

  lemma LinkIsOfSpan(l: SpanLink, row: SpanRow)
    requires IsLinkOf(l, row)
    ensures l.sourceTraceId == row.traceId
  {
  }

  // ---- Which traces are dropped ----

  function IdsOf(spans: seq<Span>): set<string> { set s | s in spans :: s.spanId }

  lemma OneMoreId(spans: seq<Span>, s: Span)
    ensures IdsOf(spans + [s]) == IdsOf(spans) + {s.spanId}
  {
  }

  lemma {:induction false} IdsAreCounted(spans: seq<Span>, t: string)
    requires UniqueKeys(spans) && forall i :: 0 <= i < |spans| ==> spans[i].traceId == t
    ensures |IdsOf(spans)| == |spans|
  {
    if spans != [] {
      var n := |spans| - 1;
      IdsAreCounted(spans[..n], t);
      OneMoreId(spans[..n], spans[n]);
      assert spans == spans[..n] + [spans[n]];
      forall i | 0 <= i < n ensures spans[i].spanId != spans[n].spanId { assert spans[i].Key() != spans[n].Key(); }
    }
  }

  /** The appended spans of a trace have exactly the ids stored or arriving. */
  lemma AppendedIds(d: Tables, rows: seq<SpanRow>, at: Time, t: string)
    ensures IdsOf(SpansOf(SpansAppended(d, NewRows(KeysOf(d.spans), rows), at), t)) == SpanIds(d, rows, t)
  {
    var known, added := KeysOf(d.spans), NewRows(KeysOf(d.spans), rows);
    var all := SpansAppended(d, added, at);
    FilterHas(all, InTrace(t));
    AppendedHas(d, added, at);
    NewRowsAreRows(known, rows);
    NewRowsCover(known, rows);
    hide Filter, NewRows, SpansAppended;
    var mine := SpansOf(all, t);
    forall id | id in SpanIds(d, rows, t) ensures exists s :: s in mine && s.spanId == id {
      if s :| s in d.spans && s.traceId == t && s.spanId == id {
        assert s in mine;
      } else {
        var r :| r in rows && r.traceId == t && r.spanId == id;
        ArrivedIsThere(d, rows, added, all, at, r);
      }
    }
    forall s | s in mine ensures s.spanId in SpanIds(d, rows, t) {
      if s !in d.spans {
        var r :| r in added && s == Stored(r, at);
        var k :| 0 <= k < |added| && added[k] == r;
        assert r in rows;
      }
    }
  }

  lemma ArrivedIsThere(d: Tables, rows: seq<SpanRow>, added: seq<SpanRow>, all: seq<Span>, at: Time, r: SpanRow)
    requires r in rows && forall i :: 0 <= i < |rows| ==> RowKey(rows[i]) in KeysOf(d.spans) + RowKeys(added)
    requires (forall s :: s in d.spans ==> s in all) && (forall q :: q in added ==> Stored(q, at) in all)
    ensures exists s :: s in all && s.traceId == r.traceId && s.spanId == r.spanId
  {
    var i :| 0 <= i < |rows| && rows[i] == r;
    if RowKey(r) in KeysOf(d.spans) {
      var s :| s in d.spans && s.Key() == RowKey(r);
      assert s in all;
    } else {
      var q :| q in added && (q.traceId, q.spanId) == RowKey(r);
      assert Stored(q, at) in all;
    }
  }

  lemma OverIsCounted(d: Tables, rows: seq<SpanRow>, at: Time, t: string)
    requires UniqueKeys(d.spans) && Writable(d, NewRows(KeysOf(d.spans), rows))
    ensures |SpansOf(SpansAppended(d, NewRows(KeysOf(d.spans), rows), at), t)| == |SpanIds(d, rows, t)|
    ensures RowsOf(NewRows(KeysOf(d.spans), rows), t) != [] <==> HasFresh(d, rows, t)
  {
    hide NewRows, SpansAppended, IsFresh, SpanIds, IdsOf, Filter;
    var added := NewRows(KeysOf(d.spans), rows);
    var all := SpansAppended(d, added, at);
    AppendedUnique(d, added, at);
    FilterUnique(all, InTrace(t));
    FilterHas(all, InTrace(t));
    AppendedIds(d, rows, at, t);
    forall i | 0 <= i < |SpansOf(all, t)| ensures SpansOf(all, t)[i].traceId == t {
      assert SpansOf(all, t)[i] in SpansOf(all, t);
    }
    IdsAreCounted(SpansOf(all, t), t);
    FilterHas(added, RowInTrace(t));
    NewRowsAreFresh(d, rows);
    if RowsOf(added, t) != [] {
      var r := RowsOf(added, t)[0];
      assert r in RowsOf(added, t);
      var i :| 0 <= i < |rows| && IsFresh(d, rows, i) && rows[i] == r;
    }
    if i :| 0 <= i < |rows| && IsFresh(d, rows, i) && rows[i].traceId == t { assert rows[i] in RowsOf(added, t); }
  }

  lemma TracesAreDropped(d: Tables, rows: seq<SpanRow>, at: Time, over: set<string>, after: Tables)
    requires UniqueKeys(d.spans) && TraceWritten(d, NewRows(KeysOf(d.spans), rows), at, over, after)
    requires Writable(d, NewRows(KeysOf(d.spans), rows))
    ensures DropsTraces(d, rows, at, over, after)
  {
    var added := NewRows(KeysOf(d.spans), rows);
    hide NewRows, SpansAppended, IsFresh, HasFresh, SpanIds, Filter, UniqueKeys, Writable, Folded;
    forall t
      ensures IsOver(d, added, at, t) <==> HasFresh(d, rows, t) && |SpanIds(d, rows, t)| > 10_000
      ensures |SpansOf(SpansAppended(d, added, at), t)| == |SpanIds(d, rows, t)|
    {
      OverIsCounted(d, rows, at, t);
    }
  }

  lemma AppendedUnique(d: Tables, rows: seq<SpanRow>, at: Time)
    requires UniqueKeys(d.spans) && Writable(d, rows)
    ensures UniqueKeys(SpansAppended(d, rows, at))
  {
    var all, m := SpansAppended(d, rows, at), |d.spans|;
    forall i, j | 0 <= i < j < |all|
      ensures all[i].Key() != all[j].Key()
    {
      if j >= m {
        assert all[j] == Stored(rows[j - m], at);
        if i >= m { assert all[i] == Stored(rows[i - m], at); }
        else { assert d.spans[i].Key() in KeysOf(d.spans); }
      }
    }
  }

  lemma AppendedSpansOf(d: Tables, rows: seq<SpanRow>, at: Time, t: string)
    ensures SpansOf(SpansAppended(d, rows, at), t) == SpansOf(d.spans, t) + StoredAll(RowsOf(rows, t), at)
  {
    FilterAppend(d.spans, StoredAll(rows, at), InTrace(t));
    StoredRowsOf(rows, at, t);
  }

  /** Deleting whole traces leaves every other trace as it was. */
  lemma SpansOfKept(spans: seq<Span>, over: set<string>, t: string)
    ensures SpansOf(Filter(spans, NotInTraces(over)), t) == if t in over then [] else SpansOf(spans, t)
  {
    FilterCommutes(spans, NotInTraces(over), InTrace(t));
    FilterHas(spans, InTrace(t));
    var rows := SpansOf(spans, t);
    assert forall i :: 0 <= i < |rows| ==> rows[i] in rows;
    if t in over { FilterNone(rows, NotInTraces(over)); } else { FilterAll(rows, NotInTraces(over)); }
  }

  /** Merging a trace's new rows into its stored summary aggregates its old and new spans together. */
  lemma MergedRowIsExact(d: Tables, rows: seq<SpanRow>, at: Time, t: string)
    requires TracesConsistent(d) && Writable(d, rows)
    ensures IsSummaryOf(SpansOf(SpansAppended(d, rows, at), t),
                        Folded(FindSummary(d.summaries, t), RowsOf(rows, t), at), t)
  {
    AppendedUnique(d, rows, at);
    FilterUnique(SpansAppended(d, rows, at), InTrace(t));
    AppendedSpansOf(d, rows, at, t);
    FilterHas(rows, RowInTrace(t));
    var mine := RowsOf(rows, t);
    assert forall i :: 0 <= i < |mine| ==> mine[i] in mine;
    assert SummaryExact(d.spans, d.summaries, t);
    FoldKeepsSummary(SpansOf(d.spans, t), FindSummary(d.summaries, t), mine, at, t);
  }

  lemma WriteKeepsSummary(d: Tables, rows: seq<SpanRow>, at: Time, over: set<string>, after: Tables, t: string)
    requires TracesConsistent(d) && Writable(d, rows) && TraceWritten(d, rows, at, over, after)
    ensures SummaryExact(after.spans, after.summaries, t)
  {
    SpansOfKept(SpansAppended(d, rows, at), over, t);
    MergedRowIsExact(d, rows, at, t);
    assert FindSummary(after.summaries, t) ==
           if t in over then None else Folded(FindSummary(d.summaries, t), RowsOf(rows, t), at);
  }

  lemma WriteKeepsLimit(d: Tables, rows: seq<SpanRow>, at: Time, over: set<string>, after: Tables, t: string)
    requires TracesConsistent(d) && Writable(d, rows) && TraceWritten(d, rows, at, over, after)
    ensures WithinLimit(after.spans, after.dropped, t)
  {
    SpansOfKept(SpansAppended(d, rows, at), over, t);
    AppendedSpansOf(d, rows, at, t);
    assert WithinLimit(d.spans, d.dropped, t);
    FilterHas(rows, RowInTrace(t));
    var mine := RowsOf(rows, t);
    assert t in over <==> IsOver(d, rows, at, t);
    if mine != [] {
      assert mine[0] in mine;
    } else {
      assert SpansOf(d.spans, t) + StoredAll(mine, at) == SpansOf(d.spans, t);
    }
  }

  lemma WriteKeepsLinks(d: Tables, rows: seq<SpanRow>, at: Time, over: set<string>, after: Tables)
    requires TracesConsistent(d) && Writable(d, rows) && TraceWritten(d, rows, at, over, after)
    ensures LinksExact(after.spans, after.links)
  {
    var spans, links := SpansAppended(d, rows, at), d.links + AllLinks(rows);
    FilterHas(spans, NotInTraces(over));
    FilterHas(links, NotFromTraces(over));
    forall s | s in after.spans
      ensures Numbered(LinksOf(after.links, s.Key()), s.linkCount)
    {
      AppendedLinksOf(d, rows, at, s);
      LinksOfKept(links, over, s.Key());
    }
    AllLinksSources(rows);
    forall l | l in after.links
      ensures (l.sourceTraceId, l.sourceSpanId) in KeysOf(after.spans)
    {
      var key := (l.sourceTraceId, l.sourceSpanId);
      if l in d.links {
        var s :| s in d.spans && s.Key() == key;
        assert s in after.spans;
      } else {
        var r :| r in rows && (r.traceId, r.spanId) == key;
        var i :| 0 <= i < |rows| && rows[i] == r;
        assert StoredAll(rows, at)[i] in spans;
        assert StoredAll(rows, at)[i] in after.spans;
      }
    }
  }

  lemma LinksOfKept(links: seq<SpanLink>, over: set<string>, key: (string, string))
    requires key.0 !in over
    ensures LinksOf(Filter(links, NotFromTraces(over)), key) == LinksOf(links, key)
  {
    FilterCommutes(links, NotFromTraces(over), FromSpan(key));
    FilterHas(links, FromSpan(key));
    var mine := LinksOf(links, key);
    assert forall i :: 0 <= i < |mine| ==> mine[i] in mine;
    FilterAll(mine, NotFromTraces(over));
  }

  lemma AppendedLinksOf(d: Tables, rows: seq<SpanRow>, at: Time, s: Span)
    requires LinksExact(d.spans, d.links) && Writable(d, rows)
    requires s in SpansAppended(d, rows, at)
    ensures Numbered(LinksOf(d.links + AllLinks(rows), s.Key()), s.linkCount)
  {
    hide Filter, AllLinks;
    FilterAppend(d.links, AllLinks(rows), FromSpan(s.Key()));
    if s in d.spans {
      assert s.Key() in KeysOf(d.spans);
      AllLinksAbsent(rows, s.Key());
      assert LinksOf(d.links, s.Key()) + [] == LinksOf(d.links, s.Key());
    } else {
      var i :| 0 <= i < |rows| && Stored(rows[i], at) == s;
      AllLinksPresent(rows, i);
      assert forall k :: 0 <= k < |d.links| ==> d.links[k] in d.links;
      FilterNone(d.links, FromSpan(s.Key()));
      assert [] + LinksFor(rows[i]) == LinksFor(rows[i]);
    }
  }

  /** A trace write keeps the trace tables consistent: summaries exact, no duplicates, limits and link ordinals. */
  lemma WriteKeepsTraces(d: Tables, rows: seq<SpanRow>, at: Time, over: set<string>, after: Tables)
    requires TracesConsistent(d) && Writable(d, rows) && TraceWritten(d, rows, at, over, after)
    ensures TracesConsistent(after)
  {
    AppendedUnique(d, rows, at);
    FilterUnique(SpansAppended(d, rows, at), NotInTraces(over));
    forall t ensures SummaryExact(after.spans, after.summaries, t) { WriteKeepsSummary(d, rows, at, over, after, t); }
    forall t ensures WithinLimit(after.spans, after.dropped, t) { WriteKeepsLimit(d, rows, at, over, after, t); }
    WriteKeepsLinks(d, rows, at, over, after);
  }

  // ---- One retention delete ----

  function Before(cutoff: Time): Span -> bool { (s: Span) => s.startTs < cutoff }

  /** The keys of the spans a sweep deletes. */
  function SweptKeys(spans: seq<Span>, cutoff: Time): set<(string, string)> {
    set s | s in spans && s.startTs < cutoff :: s.Key()
  }

  function AffectedTraces(spans: seq<Span>, cutoff: Time): set<string> {
    set s | s in spans && s.startTs < cutoff :: s.traceId
  }

  /** What the rebuild leaves for one trace: its aggregate, or no row without spans. */
  function RebuiltRow(spans: seq<Span>, t: string): Option<Summary> {
    var rows := SpansOf(spans, t);
    var deduped := DedupedFrom(rows, 0);
    if deduped == [] then None else Some(Rebuilt(deduped))
  }

  ghost predicate Swept(d: Tables, cutoff: Time, after: Tables) {
    && after.spans == Filter(d.spans, NotBefore(cutoff))
    && after.links == Filter(d.links, NotFromSpans(SweptKeys(d.spans, cutoff)))
    && (forall t :: FindSummary(after.summaries, t) ==
          if t in AffectedTraces(d.spans, cutoff) then RebuiltRow(after.spans, t) else FindSummary(d.summaries, t))
    && after.dropped.Keys <= d.dropped.Keys
  }

  /** The spans of one trace, of each repeated key the row ingested first. */
  function DedupedSpansOf(spans: seq<Span>, t: string): seq<Span> { DedupedFrom(SpansOf(spans, t), 0) }

  /** The rebuilt row aggregates the deduplicated spans of its trace. */
  lemma RebuiltRowAggregates(spans: seq<Span>, t: string)
    ensures IsDeduplicated(SpansOf(spans, t), DedupedSpansOf(spans, t))
    ensures IsSummaryOf(DedupedSpansOf(spans, t), RebuiltRow(spans, t), t)
  {
    hide DedupedFrom, IsAggregate, Rebuilt, UniqueKeys, Filter, IsDeduplicated;
    var rows := SpansOf(spans, t);
    FilterHas(spans, InTrace(t));
    forall i | 0 <= i < |rows| ensures rows[i].traceId == t {
      assert rows[i] in rows;
    }
    DedupedIsDeduplicated(rows);
    KeptOfTrace(rows, DedupedFrom(rows, 0), t);
    if rows != [] {
      RebuiltIsAggregate(rows);
      RebuiltKeepsTrace(DedupedFrom(rows, 0));
    }
  }

  lemma RebuiltKeepsTrace(rows: seq<Span>)
    requires rows != []
    ensures Rebuilt(rows).traceId == rows[0].traceId
  {
  }

  lemma RebuiltRowIsExact(spans: seq<Span>, t: string)
    requires UniqueKeys(spans)
    ensures IsSummaryOf(SpansOf(spans, t), RebuiltRow(spans, t), t)
  {
    FilterUnique(spans, InTrace(t));
    DedupedFromUnique(SpansOf(spans, t), 0);
    RebuiltRowAggregates(spans, t);
  }

  lemma UnaffectedSpansOf(spans: seq<Span>, cutoff: Time, t: string)
    requires t !in AffectedTraces(spans, cutoff)
    ensures SpansOf(Filter(spans, NotBefore(cutoff)), t) == SpansOf(spans, t)
  {
    FilterCommutes(spans, NotBefore(cutoff), InTrace(t));
    FilterHas(spans, InTrace(t));
    var mine := SpansOf(spans, t);
    assert forall i :: 0 <= i < |mine| ==> mine[i] in mine;
    FilterAll(mine, NotBefore(cutoff));
  }

  lemma SweepKeepsSummary(d: Tables, cutoff: Time, after: Tables, t: string)
    requires TracesConsistent(d) && Swept(d, cutoff, after)
    ensures SummaryExact(after.spans, after.summaries, t)
  {
    assert SummaryExact(d.spans, d.summaries, t);
    assert FindSummary(after.summaries, t) ==
           if t in AffectedTraces(d.spans, cutoff) then RebuiltRow(after.spans, t) else FindSummary(d.summaries, t);
    FilterUnique(d.spans, NotBefore(cutoff));
    if t in AffectedTraces(d.spans, cutoff) {
      RebuiltRowIsExact(after.spans, t);
    } else {
      UnaffectedSpansOf(d.spans, cutoff, t);
    }
  }

  lemma SweepKeepsLimit(d: Tables, cutoff: Time, after: Tables, t: string)
    requires TracesConsistent(d) && Swept(d, cutoff, after)
    ensures WithinLimit(after.spans, after.dropped, t)
  {
    assert WithinLimit(d.spans, d.dropped, t);
    FilterCommutes(d.spans, NotBefore(cutoff), InTrace(t));
  }

  lemma SweepKeepsLinks(d: Tables, cutoff: Time, after: Tables)
    requires TracesConsistent(d) && Swept(d, cutoff, after)
    ensures LinksExact(after.spans, after.links)
  {
    var gone := SweptKeys(d.spans, cutoff);
    FilterHas(d.spans, NotBefore(cutoff));
    FilterHas(d.links, NotFromSpans(gone));
    forall s | s in after.spans
      ensures Numbered(LinksOf(after.links, s.Key()), s.linkCount)
    {
      assert s.Key() !in gone by { KeyDecidesSpan(d.spans, s, cutoff); }
      FilterCommutes(d.links, NotFromSpans(gone), FromSpan(s.Key()));
      FilterHas(d.links, FromSpan(s.Key()));
      var mine := LinksOf(d.links, s.Key());
      assert forall i :: 0 <= i < |mine| ==> mine[i] in mine;
      FilterAll(mine, NotFromSpans(gone));
    }
    forall l | l in after.links
      ensures (l.sourceTraceId, l.sourceSpanId) in KeysOf(after.spans)
    {
      var s :| s in d.spans && s.Key() == (l.sourceTraceId, l.sourceSpanId);
      assert s in after.spans;
    }
  }

  lemma SameKeySameSpan(spans: seq<Span>, r: Span, s: Span)
    requires UniqueKeys(spans) && r in spans && s in spans && r.Key() == s.Key()
    ensures r == s
  {
    var i :| 0 <= i < |spans| && spans[i] == r;
    var j :| 0 <= j < |spans| && spans[j] == s;
  }

  lemma KeyDecidesSpan(spans: seq<Span>, s: Span, cutoff: Time)
    requires UniqueKeys(spans) && s in spans && s.startTs >= cutoff
    ensures s.Key() !in SweptKeys(spans, cutoff)
  {
    forall r | r in spans && r.Key() == s.Key() ensures r == s { SameKeySameSpan(spans, r, s); }
  }

  /** A retention delete with its partial rebuild keeps the trace tables consistent. */
  lemma SweepKeepsTraces(d: Tables, cutoff: Time, after: Tables)
    requires TracesConsistent(d) && Swept(d, cutoff, after)
    ensures TracesConsistent(after)
  {
    FilterUnique(d.spans, NotBefore(cutoff));
    forall t ensures SummaryExact(after.spans, after.summaries, t) { SweepKeepsSummary(d, cutoff, after, t); }
    forall t ensures WithinLimit(after.spans, after.dropped, t) { SweepKeepsLimit(d, cutoff, after, t); }
    SweepKeepsLinks(d, cutoff, after);
  }
}
