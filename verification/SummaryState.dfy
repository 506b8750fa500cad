// The in-memory summary state one trace batch works on, and the loops that fill it.
module SummaryState {
  import opened Order
  import opened Rows
  import opened TraceSummary

  /** The running summary of one trace; no span has been merged while `spanCount` is zero. */
  class TraceSummaryState {
    var traceId: string
    var startTime: Time
    var endTime: Time
    var spanCount: nat
    var linkCount: nat
    var hasError: bool
    var firstSeen: Time
    var root: Option<Root>
    var hasEarliest: bool
    var earliestSpanId: string
    var earliestResourceHash: Hash

    predicate Valid() reads this {
      (hasEarliest <==> spanCount > 0) && (spanCount == 0 ==> linkCount == 0 && !hasError && root == None)
    }

    /** The summary row this state stands for; `None` before the first span. */
    function View(): Option<Summary> reads this {
      if spanCount == 0 then None
      else Some(Summary(traceId, startTime, endTime, spanCount, linkCount, hasError, firstSeen, root,
                        earliestSpanId, earliestResourceHash))
    }

    /** The zero state of a trace seen for the first time. */
    constructor ()
      ensures Valid() && View() == None
    {
      traceId, startTime, endTime, spanCount, linkCount, hasError, firstSeen := "", 0, 0, 0, 0, false, 0;
      root, hasEarliest, earliestSpanId, earliestResourceHash := None, false, "", 0;
    }

    /** The state scanned from a stored row. */
    constructor Load(s: Summary)
      requires s.spanCount > 0
      ensures Valid() && View() == Some(s)
    {
      traceId, startTime, endTime, spanCount := s.traceId, s.startTs, s.endTs, s.spanCount;
      linkCount, hasError, firstSeen, root := s.linkCount, s.hasError, s.firstSeen, s.root;
      hasEarliest, earliestSpanId, earliestResourceHash := true, s.earliestSpanId, s.earliestResourceHash;
    }

    predicate PreferRoot(row: SpanRow) reads this {
      root.None? ||
      (var duration, current := row.endTs - row.startTs, root.value.Duration();
       duration > current || (duration == current && Less(row.spanId, root.value.spanId)))
    }

    /** The start of `mergeSpan`: the earliest span and the bounds. */
    method MergeBounds(row: SpanRow, ingestedAt: Time)
      requires Valid()
      modifies `traceId, `startTime, `endTime, `firstSeen, `hasEarliest, `earliestSpanId, `earliestResourceHash
      ensures hasEarliest
      ensures var m := Merged(old(View()), row, ingestedAt);
              traceId == m.traceId && startTime == m.startTs && endTime == m.endTs && firstSeen == m.firstSeen &&
              earliestSpanId == m.earliestSpanId && earliestResourceHash == m.earliestResourceHash
    {
      if spanCount == 0 {
        traceId, startTime, endTime, firstSeen := row.traceId, row.startTs, row.endTs, ingestedAt;
      }
      if !hasEarliest || row.startTs < startTime || (row.startTs == startTime && Less(row.spanId, earliestSpanId)) {
        hasEarliest, earliestSpanId, earliestResourceHash := true, row.spanId, row.resourceHash;
      }
      if row.startTs < startTime { startTime := row.startTs; }
      if row.endTs > endTime { endTime := row.endTs; }
      if ingestedAt < firstSeen { firstSeen := ingestedAt; }
    }

    /** Folds one span into the state, field by field. */
    method MergeSpan(row: SpanRow, ingestedAt: Time)
      requires Valid()
      modifies this
      ensures Valid() && View() == Some(Merged(old(View()), row, ingestedAt))
    {
      MergeBounds(row, ingestedAt);
      spanCount := spanCount + 1;
      linkCount := linkCount + |row.links|;
      hasError := hasError || row.statusCode == "Error";
      if row.parentSpanId == "" && PreferRoot(row) {
        root := Some(Root(row.spanId, row.name, row.kind, row.statusCode, row.startTs, row.endTs, row.resourceHash));
      }
    }
  }

  /** The summary after merging one trace's rows one by one. */
  function Folded(before: Option<Summary>, rows: seq<SpanRow>, at: Time): Option<Summary> {
    if rows == [] then before
    else Some(Merged(Folded(before, rows[..|rows| - 1], at), rows[|rows| - 1], at))
  }

  function Lookup(views: map<string, Option<Summary>>, t: string): Option<Summary> {
    if t in views then views[t] else None
  }

  /** The summaries of all traces after merging a whole batch. */
  function FoldedAll(views: map<string, Option<Summary>>, rows: seq<SpanRow>, at: Time): map<string, Option<Summary>> {
    if rows == [] then views
    else
      var row, before := rows[|rows| - 1], FoldedAll(views, rows[..|rows| - 1], at);
      before[row.traceId := Some(Merged(Lookup(before, row.traceId), row, at))]
  }

  /** A batch is merged trace by trace: the rows of other traces play no part. */
  lemma {:induction false} FoldedByTrace(views: map<string, Option<Summary>>, rows: seq<SpanRow>, at: Time, t: string)
    ensures t in FoldedAll(views, rows, at) <==> t in views || RowsOf(rows, t) != []
    ensures Lookup(FoldedAll(views, rows, at), t) == Folded(Lookup(views, t), RowsOf(rows, t), at)
  {
    if rows != [] {
      var n := |rows| - 1;
      FoldedByTrace(views, rows[..n], at, t);
      var r := RowsOf(rows[..n], t);
      assert (r + [rows[n]])[..|r|] == r;
    }
  }

  /** No two traces share a state object, and every state is well formed. */
  ghost predicate Separate(states: map<string, TraceSummaryState>)
    reads states.Values
  {
    (forall t :: t in states ==> states[t].Valid()) &&
    (forall t, u :: t in states && u in states && t != u ==> states[t] != states[u])
  }

  ghost function Snapshot(states: map<string, TraceSummaryState>): map<string, Option<Summary>>
    reads states.Values
  {
    map t | t in states :: states[t].View()
  }

  lemma NoStates(states: map<string, TraceSummaryState>)
    requires states == map[]
    ensures Separate(states) && Snapshot(states) == map[]
  {
  }

  lemma SnapshotKeys(states: map<string, TraceSummaryState>)
    ensures Snapshot(states).Keys == states.Keys
  {
  }

  /** A map with one more state object, for a trace without one. */
  method AddState(states: map<string, TraceSummaryState>, t: string, stored: Option<Summary>)
    returns (after: map<string, TraceSummaryState>)
    requires Separate(states) && t !in states && (stored.Some? ==> stored.value.spanCount > 0)
    ensures Separate(after) && t in after && fresh(after[t]) && after == states[t := after[t]]
    ensures Snapshot(after) == Snapshot(states)[t := stored]
  {
    var state: TraceSummaryState;
    if stored.None? { state := new TraceSummaryState(); } else { state := new TraceSummaryState.Load(stored.value); }
    after := states[t := state];
  }

  /** Merges one row into the state of its trace. */
  method MergeInto(states: map<string, TraceSummaryState>, row: SpanRow, at: Time)
    requires Separate(states) && row.traceId in states
    modifies states[row.traceId]
    ensures Separate(states)
    ensures Snapshot(states)
      == old(Snapshot(states))[row.traceId := Some(Merged(old(Snapshot(states))[row.traceId], row, at))]
  {
    hide Merged;
    states[row.traceId].MergeSpan(row, at);
  }

  /** Merges one row into the state of its trace, creating that state on first sight. */
  method MergeRow(states: map<string, TraceSummaryState>, row: SpanRow, at: Time)
    returns (after: map<string, TraceSummaryState>)
    requires Separate(states)
    modifies states.Values
    ensures Separate(after) && fresh(after.Values - states.Values)
    ensures Snapshot(after) == FoldedAll(old(Snapshot(states)), [row], at)
  {
    hide Merged, FoldedAll, Snapshot, Separate;
    ghost var before := Snapshot(states);
    SnapshotKeys(states);
    FoldedOne(before, row, at);
    after := states;
    if row.traceId !in states { after := AddState(states, row.traceId, None); }
    assert Lookup(before, row.traceId) == Snapshot(after)[row.traceId];
    MergeInto(after, row, at);
  }

  lemma FoldedOne(views: map<string, Option<Summary>>, row: SpanRow, at: Time)
    ensures FoldedAll(views, [row], at) == views[row.traceId := Some(Merged(Lookup(views, row.traceId), row, at))]
  {
    hide Merged;
    assert [row][..0] == [];
  }

  /** Merges a whole batch into the states it touches. */
  method MergeTraceSummaryStates(existing: map<string, TraceSummaryState>, rows: seq<SpanRow>, at: Time)
    returns (states: map<string, TraceSummaryState>)
    requires Separate(existing)
    modifies existing.Values
    ensures Separate(states) && fresh(states.Values - existing.Values)
    ensures Snapshot(states) == FoldedAll(old(Snapshot(existing)), rows, at)
  {
    states := existing;
    ghost var before := Snapshot(existing);
    for i := 0 to |rows|
      invariant Separate(states) && fresh(states.Values - existing.Values)
      invariant Snapshot(states) == FoldedAll(before, rows[..i], at)
    {
      states := MergeRow(states, rows[i], at);
      assert rows[..i + 1][..i] == rows[..i] && [rows[i]][..0] == [];
    }
    assert rows[..|rows|] == rows;
  }

  /** Merging a batch's new spans into a stored summary yields the full aggregation of old and new spans. */
  lemma {:induction false} FoldKeepsSummary(known: seq<Span>, before: Option<Summary>, rows: seq<SpanRow>, at: Time,
                                            t: string)
    requires IsSummaryOf(known, before, t)
    requires forall i :: 0 <= i < |rows| ==> rows[i].traceId == t
    requires UniqueKeys(known + StoredAll(rows, at))
    ensures IsSummaryOf(known + StoredAll(rows, at), Folded(before, rows, at), t)
  {
    hide IsSummaryOf, Merged;
    if rows == [] {
      assert known + StoredAll(rows, at) == known;
    } else {
      var n := |rows| - 1;
      var less, all := known + StoredAll(rows[..n], at), known + StoredAll(rows, at);
      assert all == less + [Stored(rows[n], at)];
      assert forall i :: 0 <= i < |less| ==> all[i] == less[i];
      FoldKeepsSummary(known, before, rows[..n], at, t);
      MergeKeepsSummary(less, Folded(before, rows[..n], at), rows[n], at);
    }
  }
}
