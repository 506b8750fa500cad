// Delivering the same spans in another order, split or repetition ends in the same tables.
module Redelivery {
  import opened Filters
  import opened Order
  import opened Rows
  import opened TraceSummary
  import opened Database
  import opened TraceTables

  function NotDropped(dropped: map<string, Tombstone>): SpanRow -> bool { (r: SpanRow) => r.traceId !in dropped }

  /** The rows of a batch that reach the transaction: those of tombstoned traces are filtered out first. */
  function Surviving(d: Tables, rows: seq<SpanRow>): seq<SpanRow> { Filter(rows, NotDropped(d.dropped)) }

  /** The rows a batch inserts. */
  function Inserted(d: Tables, rows: seq<SpanRow>): seq<SpanRow> { NewRows(KeysOf(d.spans), Surviving(d, rows)) }

  /** One trace batch written without error; refreshing tombstones leaves their ids as they were. */
  ghost predicate DeliveryStep(d: Tables, rows: seq<SpanRow>, after: Tables) {
    exists refreshed: map<string, Tombstone>, at, over ::
      refreshed.Keys == d.dropped.Keys &&
      TraceWritten(d.(dropped := refreshed), Inserted(d, rows), at, over, after)
  }

  /** Spans with the same ids are the same span: what redelivery of identical spans means. */
  ghost predicate SameKeySameRow(rows: seq<SpanRow>) {
    forall r, q :: r in rows && q in rows && RowKey(r) == RowKey(q) ==> r == q
  }

  /** The distinct spans of one trace among the delivered rows. */
  function Distinct(rows: seq<SpanRow>, t: string): set<Span> {
    set r | r in rows && r.traceId == t :: Stored(r, 0)
  }

  /** Trace `t` holds exactly what was delivered of it, unless that was too much. */
  ghost predicate HoldsDelivered(d: Tables, rows: seq<SpanRow>, t: string) {
    (t in d.dropped <==> |Distinct(rows, t)| > MAX_SPANS_PER_TRACE) &&
    (t !in d.dropped ==> Stripped(SpansOf(d.spans, t)) == Distinct(rows, t))
  }

  lemma InsertedIsWritable(d: Tables, refreshed: map<string, Tombstone>, rows: seq<SpanRow>)
    requires refreshed.Keys == d.dropped.Keys
    ensures Writable(d.(dropped := refreshed), Inserted(d, rows))
    ensures forall r :: r in Inserted(d, rows) ==> r in rows
  {
    var kept := Surviving(d, rows);
    FilterHas(rows, NotDropped(d.dropped));
    NewRowsAreNew(KeysOf(d.spans), kept);
    NewRowsAreRows(KeysOf(d.spans), kept);
  }

  /** Only rows already stored are left out, so the appended table has every delivered span of a live trace. */
  lemma AppendedHoldsDelivered(d: Tables, before: seq<SpanRow>, rows: seq<SpanRow>, at: Time, t: string)
    requires UniqueKeys(d.spans) && SameKeySameRow(before + rows)
    requires t !in d.dropped && HoldsDelivered(d, before, t)
    ensures Stripped(SpansOf(d.spans, t) + StoredAll(RowsOf(Inserted(d, rows), t), at)) == Distinct(before + rows, t)
  {
    var added := RowsOf(Inserted(d, rows), t);
    var all := SpansOf(d.spans, t) + StoredAll(added, at);
    InsertedIsWritable(d, d.dropped, rows);
    FilterHas(Inserted(d, rows), RowInTrace(t));
    forall s | s in Stripped(all)
      ensures s in Distinct(before + rows, t)
    {
      var r :| r in all && Strip(r) == s;
      if r in SpansOf(d.spans, t) {
        assert s in Stripped(SpansOf(d.spans, t));
      } else {
        var i :| 0 <= i < |added| && Stored(added[i], at) == r;
        assert added[i] in added;
      }
    }
    forall s | s in Distinct(before + rows, t)
      ensures s in Stripped(all)
    {
      var r :| r in before + rows && r.traceId == t && Stored(r, 0) == s;
      DeliveredRowIsThere(d, before, rows, at, t, r);
    }
  }

  lemma StoredWasDelivered(d: Tables, before: seq<SpanRow>, rows: seq<SpanRow>, t: string, r: SpanRow)
    requires SameKeySameRow(before + rows) && t !in d.dropped && HoldsDelivered(d, before, t)
    requires r in before + rows && r.traceId == t && RowKey(r) in KeysOf(d.spans)
    ensures r in before
  {
    FilterHas(d.spans, InTrace(t));
    var s :| s in d.spans && s.Key() == RowKey(r);
    assert Strip(s) in Stripped(SpansOf(d.spans, t));
    var q :| q in before && q.traceId == t && Stored(q, 0) == Strip(s);
    assert RowKey(q) == RowKey(r);
  }

  lemma DeliveredRowIsThere(d: Tables, before: seq<SpanRow>, rows: seq<SpanRow>, at: Time, t: string, r: SpanRow)
    requires SameKeySameRow(before + rows) && t !in d.dropped && HoldsDelivered(d, before, t)
    requires r in before + rows && r.traceId == t
    ensures Stored(r, 0) in Stripped(SpansOf(d.spans, t) + StoredAll(RowsOf(Inserted(d, rows), t), at))
  {
    var known := SpansOf(d.spans, t);
    var added := RowsOf(Inserted(d, rows), t);
    var all := known + StoredAll(added, at);
    assert forall s :: s in known ==> s in all;
    InsertedIsWritable(d, d.dropped, rows);
    FilterHas(Inserted(d, rows), RowInTrace(t));
    FilterHas(d.spans, InTrace(t));
    if RowKey(r) in KeysOf(d.spans) { StoredWasDelivered(d, before, rows, t, r); }
    if r in before {
      assert Stored(r, 0) in Stripped(known);
    } else {
      FilterHas(rows, NotDropped(d.dropped));
      NewRowsCover(KeysOf(d.spans), Surviving(d, rows));
      var i :| 0 <= i < |Surviving(d, rows)| && Surviving(d, rows)[i] == r;
      var q :| q in Inserted(d, rows) && RowKey(q) == RowKey(r);
      assert q == r && q in added;
      var j :| 0 <= j < |added| && added[j] == r;
      assert StoredAll(added, at)[j] in all;
    }
  }

  lemma SubsetSize<T>(a: set<T>, b: set<T>)
    requires a <= b
    ensures |a| <= |b|
  {
    assert b == a + (b - a);
  }

  /** One more batch: trace `t` holds what has been delivered so far. */
  lemma StepHoldsDelivered(d: Tables, before: seq<SpanRow>, rows: seq<SpanRow>, after: Tables, t: string)
    requires TracesConsistent(d) && SameKeySameRow(before + rows)
    requires DeliveryStep(d, rows, after) && HoldsDelivered(d, before, t)
    ensures HoldsDelivered(after, before + rows, t)
  {
    var refreshed: map<string, Tombstone>, at, over :|
      refreshed.Keys == d.dropped.Keys &&
      TraceWritten(d.(dropped := refreshed), Inserted(d, rows), at, over, after);
    var d', added := d.(dropped := refreshed), Inserted(d, rows);
    InsertedIsWritable(d, refreshed, rows);
    SubsetSize(Distinct(before, t), Distinct(before + rows, t));
    if t !in d.dropped {
      AppendedSpansOf(d', added, at, t);
      AppendedHoldsDelivered(d, before, rows, at, t);
      AppendedUnique(d', added, at);
      FilterUnique(SpansAppended(d', added, at), InTrace(t));
      StrippedSize(SpansOf(SpansAppended(d', added, at), t));
      SpansOfKept(SpansAppended(d', added, at), over, t);
      assert t in over <==> IsOver(d', added, at, t);
      assert WithinLimit(d.spans, d.dropped, t);
      if RowsOf(added, t) == [] {
        assert SpansOf(d.spans, t) + StoredAll(RowsOf(added, t), at) == SpansOf(d.spans, t);
      }
    }
  }

  lemma StepKeepsTraces(d: Tables, rows: seq<SpanRow>, after: Tables)
    requires TracesConsistent(d) && DeliveryStep(d, rows, after)
    ensures TracesConsistent(after)
  {
    var refreshed: map<string, Tombstone>, at, over :|
      refreshed.Keys == d.dropped.Keys &&
      TraceWritten(d.(dropped := refreshed), Inserted(d, rows), at, over, after);
    InsertedIsWritable(d, refreshed, rows);
    var d' := d.(dropped := refreshed);
    forall t ensures WithinLimit(d'.spans, d'.dropped, t) { assert WithinLimit(d.spans, d.dropped, t); }
    WriteKeepsTraces(d', Inserted(d, rows), at, over, after);
  }

  /** The rows of live traces, in order. */
  lemma SurvivingAre(d: Tables, rows: seq<SpanRow>)
    ensures forall r :: r in Surviving(d, rows) <==> r in rows && r.traceId !in d.dropped
    ensures (forall i :: 0 <= i < |rows| ==> rows[i].traceId !in d.dropped) ==> Surviving(d, rows) == rows
  {
    FilterHas(rows, NotDropped(d.dropped));
    if forall i :: 0 <= i < |rows| ==> rows[i].traceId !in d.dropped { FilterAll(rows, NotDropped(d.dropped)); }
  }

  /** One delivered batch stores the fresh rows of its live traces, span by span and link by link. */
  lemma StepStoresRows(d: Tables, rows: seq<SpanRow>, after: Tables) returns (at: Time, over: set<string>)
    requires TracesConsistent(d) && DeliveryStep(d, rows, after)
    ensures StoresSpans(d, Surviving(d, rows), at, over, after) && StoresLinks(d, Surviving(d, rows), over, after)
    ensures forall t :: t in over ==> t in after.dropped && t !in d.dropped
    ensures forall t :: t in after.dropped <==> t in d.dropped || t in over
  {
    hide TraceWritten, StoresSpans, StoresLinks, NewRows, Writable, DropsTraces, Surviving, SummaryExact;
    var refreshed: map<string, Tombstone>;
    refreshed, at, over :| refreshed.Keys == d.dropped.Keys &&
      TraceWritten(d.(dropped := refreshed), Inserted(d, rows), at, over, after);
    var d', live := d.(dropped := refreshed), Surviving(d, rows);
    InsertedIsWritable(d, refreshed, rows);
    SpansAreStored(d', live, at, over, after);
    LinksAreStored(d', live, at, over, after);
    TracesAreDropped(d', live, at, over, after);
    SurvivingAre(d, rows);
    SameSpansStored(d, d', live, at, over, after);
    DroppedAreLive(d', live, at, over, after);
  }

  lemma SameSpansStored(d: Tables, e: Tables, rows: seq<SpanRow>, at: Time, over: set<string>, after: Tables)
    requires d.spans == e.spans && d.links == e.links
    requires StoresSpans(e, rows, at, over, after) && StoresLinks(e, rows, over, after)
    ensures StoresSpans(d, rows, at, over, after) && StoresLinks(d, rows, over, after)
  {
    forall i | 0 <= i < |rows| ensures IsFresh(d, rows, i) <==> IsFresh(e, rows, i) {}
    hide IsFresh, Records, IsLinkOf, UniqueKeys;
  }

  lemma DroppedAreLive(d: Tables, rows: seq<SpanRow>, at: Time, over: set<string>, after: Tables)
    requires DropsTraces(d, rows, at, over, after) && forall r :: r in rows ==> r.traceId !in d.dropped
    ensures forall t :: t in over ==> t in after.dropped && t !in d.dropped
    ensures forall t :: t in after.dropped <==> t in d.dropped || t in over
  {
    hide IsFresh, SpanIds;
  }

  // ---- Whole runs ----

  /** `states` is a run of trace writes from empty tables, one state after each batch. */
  ghost predicate IsRun(states: seq<Tables>, batches: seq<seq<SpanRow>>) {
    |states| == |batches| + 1 &&
    states[0].spans == [] && states[0].links == [] && states[0].summaries == map[] && states[0].dropped == map[] &&
    forall i :: 0 <= i < |batches| ==> DeliveryStep(states[i], batches[i], states[i + 1])
  }

  lemma {:induction false} RunHoldsDistinct(states: seq<Tables>, batches: seq<seq<SpanRow>>)
    requires IsRun(states, batches) && SameKeySameRow(Flat(batches))
    ensures TracesConsistent(states[|batches|])
    ensures forall t :: HoldsDelivered(states[|batches|], Flat(batches), t)
  {
    var n := |batches|;
    if n == 0 {
      var d := states[0];
      forall t ensures SpansOf(d.spans, t) == [] {}
      forall t ensures SummaryExact(d.spans, d.summaries, t) && WithinLimit(d.spans, d.dropped, t) {}
      assert Flat(batches) == [];
      forall t ensures HoldsDelivered(d, Flat(batches), t) {
        assert Distinct([], t) == {};
        assert Stripped([]) == {};
      }
    } else {
      RunHoldsDistinct(states[..n], batches[..n - 1]);
      StepKeepsTraces(states[n - 1], batches[n - 1], states[n]);
      forall t ensures HoldsDelivered(states[n], Flat(batches), t) {
        StepHoldsDelivered(states[n - 1], Flat(batches[..n - 1]), batches[n - 1], states[n], t);
      }
    }
  }

  // ---- In terms of the delivered rows ----

  /** The ids of the spans of a trace among delivered rows. */
  function DeliveredIds(rows: seq<SpanRow>, t: string): set<string> { set r | r in rows && r.traceId == t :: r.spanId }

  /** A tombstoned trace stores nothing; any other every delivered row, column by column and once, and nothing else. */
  ghost predicate HoldsRows(d: Tables, rows: seq<SpanRow>, t: string) {
    && (t in d.dropped ==> forall s :: s in d.spans ==> s.traceId != t)
    && (t !in d.dropped ==> forall r :: r in rows && r.traceId == t ==>
          exists s :: s in d.spans && Records(s, r, s.ingestedAt))
    && (forall s :: s in d.spans && s.traceId == t ==> exists r :: r in rows && Records(s, r, s.ingestedAt))
  }

  lemma {:induction false} DistinctAreIds(rows: seq<SpanRow>, t: string)
    requires SameKeySameRow(rows)
    ensures |Distinct(rows, t)| == |DeliveredIds(rows, t)|
  {
    hide Distinct, DeliveredIds;
    if rows == [] {
      NothingDelivered(t);
    } else {
      var n := |rows| - 1;
      assert rows == rows[..n] + [rows[n]];
      DistinctAreIds(rows[..n], t);
      OneMoreDelivered(rows[..n], rows[n], t);
    }
  }

  lemma NothingDelivered(t: string)
    ensures Distinct([], t) == {} && DeliveredIds([], t) == {}
  {
  }

  /** One more row brings a new span exactly when it brings a new id. */
  lemma OneMoreDelivered(rows: seq<SpanRow>, last: SpanRow, t: string)
    requires SameKeySameRow(rows + [last])
    ensures Distinct(rows + [last], t) == Distinct(rows, t) + if last.traceId == t then {Stored(last, 0)} else {}
    ensures DeliveredIds(rows + [last], t) == DeliveredIds(rows, t) + if last.traceId == t then {last.spanId} else {}
    ensures last.traceId == t ==> (Stored(last, 0) in Distinct(rows, t) <==> last.spanId in DeliveredIds(rows, t))
  {
    if last.traceId == t && last.spanId in DeliveredIds(rows, t) {
      var q :| q in rows && q.traceId == t && q.spanId == last.spanId;
      assert q in rows + [last] && last in rows + [last] && RowKey(q) == RowKey(last);
    }
  }

  lemma DistinctAreRecorded(d: Tables, rows: seq<SpanRow>, t: string)
    requires HoldsDelivered(d, rows, t) && WithinLimit(d.spans, d.dropped, t)
    ensures HoldsRows(d, rows, t)
  {
    var mine := SpansOf(d.spans, t);
    FilterHas(d.spans, InTrace(t));
    hide Filter;
    forall r | t !in d.dropped && r in rows && r.traceId == t
      ensures exists s :: s in d.spans && Records(s, r, s.ingestedAt)
    {
      assert Stored(r, 0) in Stripped(mine);
      var s :| s in mine && Strip(s) == Stored(r, 0);
      assert Records(s, r, s.ingestedAt);
    }
    forall s | s in d.spans && s.traceId == t ensures exists r :: r in rows && Records(s, r, s.ingestedAt) {
      assert s in mine && Strip(s) in Stripped(mine);
      var r :| r in rows && r.traceId == t && Stored(r, 0) == Strip(s);
      assert Records(s, r, s.ingestedAt);
    }
  }

  /** After any run every live trace holds exactly its delivered rows, each once, and a tombstoned one holds nothing. */
  lemma RunHoldsDelivered(states: seq<Tables>, batches: seq<seq<SpanRow>>)
    requires IsRun(states, batches) && SameKeySameRow(Flat(batches))
    ensures UniqueKeys(states[|batches|].spans)
    ensures forall t :: HoldsRows(states[|batches|], Flat(batches), t)
  {
    hide HoldsDelivered, HoldsRows, SummaryExact, SameKeySameRow;
    RunHoldsDistinct(states, batches);
    forall t ensures HoldsRows(states[|batches|], Flat(batches), t) {
      assert HoldsDelivered(states[|batches|], Flat(batches), t);
      assert WithinLimit(states[|batches|].spans, states[|batches|].dropped, t);
      DistinctAreRecorded(states[|batches|], Flat(batches), t);
    }
  }

  /** A trace ends up tombstoned exactly when more than 10,000 distinct spans of it were delivered. */
  lemma TombstonedIffOverLimit(states: seq<Tables>, batches: seq<seq<SpanRow>>, t: string)
    requires IsRun(states, batches) && SameKeySameRow(Flat(batches))
    ensures t in states[|batches|].dropped <==> |DeliveredIds(Flat(batches), t)| > 10_000
  {
    RunHoldsDistinct(states, batches);
    assert HoldsDelivered(states[|batches|], Flat(batches), t);
    DistinctAreIds(Flat(batches), t);
  }

  // ---- The order of delivery ----

  /** The same spans, in any order, split into any batches, repeated at will: same spans, tombstones and summaries. */
  lemma DeliveryOrderIsIrrelevant(a: seq<Tables>, first: seq<seq<SpanRow>>, b: seq<Tables>, second: seq<seq<SpanRow>>,
                                  t: string)
    requires IsRun(a, first) && SameKeySameRow(Flat(first))
    requires IsRun(b, second) && SameKeySameRow(Flat(second))
    requires forall r :: r in Flat(first) <==> r in Flat(second)
    ensures t in a[|first|].dropped <==> t in b[|second|].dropped
    ensures Stripped(SpansOf(a[|first|].spans, t)) == Stripped(SpansOf(b[|second|].spans, t))
    ensures t in a[|first|].summaries <==> t in b[|second|].summaries
    ensures t in a[|first|].summaries ==>
      a[|first|].summaries[t].(firstSeen := 0) == b[|second|].summaries[t].(firstSeen := 0)
  {
    RunHoldsDistinct(a, first);
    RunHoldsDistinct(b, second);
    assert Distinct(Flat(first), t) == Distinct(Flat(second), t);
    SameDeliveredSameSpans(a[|first|], b[|second|], Flat(first), Flat(second), t);
    SameSpansSameSummary(a[|first|], b[|second|], t);
  }

  lemma SameDeliveredSameSpans(d: Tables, e: Tables, rows: seq<SpanRow>, others: seq<SpanRow>, t: string)
    requires TracesConsistent(d) && HoldsDelivered(d, rows, t)
    requires TracesConsistent(e) && HoldsDelivered(e, others, t)
    requires Distinct(rows, t) == Distinct(others, t)
    ensures t in d.dropped <==> t in e.dropped
    ensures Stripped(SpansOf(d.spans, t)) == Stripped(SpansOf(e.spans, t))
  {
    assert WithinLimit(d.spans, d.dropped, t) && WithinLimit(e.spans, e.dropped, t);
  }

  lemma SameSpansSameSummary(d: Tables, e: Tables, t: string)
    requires TracesConsistent(d) && TracesConsistent(e)
    requires Stripped(SpansOf(d.spans, t)) == Stripped(SpansOf(e.spans, t))
    ensures t in d.summaries <==> t in e.summaries
    ensures t in d.summaries ==> d.summaries[t].(firstSeen := 0) == e.summaries[t].(firstSeen := 0)
  {
    assert SummaryExact(d.spans, d.summaries, t) && SummaryExact(e.spans, e.summaries, t);
    FilterUnique(d.spans, InTrace(t));
    FilterUnique(e.spans, InTrace(t));
    StrippedSize(SpansOf(d.spans, t));
    StrippedSize(SpansOf(e.spans, t));
    if t in d.summaries {
      AggregatesAgree(SpansOf(d.spans, t), SpansOf(e.spans, t), d.summaries[t], e.summaries[t]);
    }
  }
}
