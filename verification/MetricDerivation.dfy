// Deltas and totals derived at query time: `lag` over a window plus one predecessor per series,
// against the whole history.
module MetricDerivation {
  import opened Filters
  import opened Order
  import opened Rows

  datatype Temporality = Cumulative | Delta | Unspecified

  /** One metric_points row joined with its series; absent columns are SQL NULL. */
  datatype Row = Row(
    id: string, series: Hash, ts: Time,
    value: Option<real>, count: Option<real>, sum: Option<real>, min: Option<real>, max: Option<real>,
    metricType: MetricType, temporality: Temporality, isMonotonic: bool)

  datatype DerivedPoint = DerivedPoint(
    id: string, series: Hash, ts: Time, metricType: MetricType,
    value: Option<real>, cumulative: Option<real>,
    count: Option<real>, countCumulative: Option<real>,
    sum: Option<real>, sumCumulative: Option<real>,
    min: Option<real>, max: Option<real>)

  predicate IsDistribution(t: MetricType) { t.Histogram? || t.ExponentialHistogram? || t.SummaryType? }

  predicate IsCounter(r: Row) { r.metricType.Sum? && r.temporality.Cumulative? && r.isMonotonic }

  /** The series whose first selected point needs an older observation. */
  predicate PredecessorRequired(r: Row) {
    r.temporality.Cumulative? && ((r.metricType.Sum? && r.isMonotonic) || IsDistribution(r.metricType))
  }

  // ---- lag() and the running sum over (PARTITION BY series_key ORDER BY ts) ----

  /** The rows of r's partition that come before it. */
  function Earlier(rows: set<Row>, r: Row): set<Row> { set q | q in rows && q.series == r.series && q.ts < r.ts }

  ghost predicate IsPrevious(rows: set<Row>, q: Row, r: Row) {
    q in Earlier(rows, r) && forall x :: x in Earlier(rows, r) ==> x.ts <= q.ts
  }

  lemma {:induction false} LatestExists(rows: set<Row>) returns (q: Row)
    requires rows != {}
    ensures q in rows && forall x :: x in rows ==> x.ts <= q.ts
  {
    q :| q in rows;
    if rows != {q} {
      var rest := LatestExists(rows - {q});
      if q.ts < rest.ts { q := rest; }
      assert forall x :: x in rows ==> x in rows - {q} || x == q;
    }
  }

  /** The row `lag` reads, if the partition has one before `r`. */
  ghost function Previous(rows: set<Row>, r: Row): (q: Option<Row>)
    ensures q.None? <==> Earlier(rows, r) == {}
    ensures q.Some? ==> IsPrevious(rows, q.value, r)
  {
    if Earlier(rows, r) == {} then None
    else
      assert exists q :: IsPrevious(rows, q, r) by {
        var q := LatestExists(Earlier(rows, r));
        assert IsPrevious(rows, q, r);
      }
      var q :| IsPrevious(rows, q, r);
      Some(q)
  }

  /** `CASE WHEN lag IS NULL THEN NULL WHEN x < lag THEN x ELSE x - lag END`; a reset emits the raw value. */
  function DeltaOf(x: Option<real>, lag: Option<real>): Option<real> {
    if lag.None? || x.None? then None
    else if x.value < lag.value then x
    else Some(x.value - lag.value)
  }

  /** SQL `sum`: NULLs are skipped, and the sum of nothing is NULL. */
  function Plus(a: Option<real>, b: Option<real>): Option<real> {
    if a.None? then b else if b.None? then a else Some(a.value + b.value)
  }

  datatype Column = ValueColumn | CountColumn | SumColumn

  function Get(r: Row, c: Column): Option<real> {
    match c case ValueColumn => r.value case CountColumn => r.count case SumColumn => r.sum
  }

  lemma EarlierShrinks(rows: set<Row>, q: Row, r: Row)
    requires IsPrevious(rows, q, r)
    ensures Earlier(rows, q) < Earlier(rows, r)
  {
    assert q in Earlier(rows, r) && q !in Earlier(rows, q);
  }

  /** `sum(c) OVER w`: the total of the partition up to and including `r`. */
  ghost function Running(rows: set<Row>, r: Row, c: Column): Option<real>
    decreases Earlier(rows, r)
  {
    match Previous(rows, r)
    case None => Get(r, c)
    case Some(q) =>
      EarlierShrinks(rows, q, r);
      Plus(Running(rows, q, c), Get(r, c))
  }

  ghost function Lag(rows: set<Row>, r: Row, c: Column): Option<real> {
    match Previous(rows, r) case None => None case Some(q) => Get(q, c)
  }

  ghost function ScalarValue(rows: set<Row>, r: Row): Option<real> {
    if IsCounter(r) then DeltaOf(r.value, Lag(rows, r, ValueColumn)) else r.value
  }

  ghost function ScalarCumulative(rows: set<Row>, r: Row): Option<real> {
    if IsCounter(r) then r.value
    else if r.metricType.Sum? && r.temporality.Delta? && r.isMonotonic then Running(rows, r, ValueColumn)
    else None
  }

  ghost function ColumnDelta(rows: set<Row>, r: Row, c: Column): Option<real> {
    if r.temporality.Cumulative? then DeltaOf(Get(r, c), Lag(rows, r, c)) else Get(r, c)
  }

  ghost function ColumnCumulative(rows: set<Row>, r: Row, c: Column): Option<real> {
    if r.temporality.Cumulative? then Get(r, c)
    else if r.temporality.Delta? then Running(rows, r, c)
    else None
  }

  /** The output row for `r`, derived within the selection `rows`. */
  ghost function Derived(rows: set<Row>, r: Row): DerivedPoint {
    var count, sum := ColumnDelta(rows, r, CountColumn), ColumnDelta(rows, r, SumColumn);
    if IsDistribution(r.metricType) then
      DerivedPoint(r.id, r.series, r.ts, r.metricType,
        if sum.None? || count.None? || count.value <= 0.0 then Some(0.0) else Some(sum.value / count.value), None,
        count, ColumnCumulative(rows, r, CountColumn), sum, ColumnCumulative(rows, r, SumColumn), r.min, r.max)
    else
      DerivedPoint(r.id, r.series, r.ts, r.metricType, ScalarValue(rows, r), ScalarCumulative(rows, r),
        None, None, None, None, r.min, r.max)
  }

  // ---- What is shown, point by point ----

  /** The shown columns that stand for growth: the value of a counter, the count and the sum of a distribution. */
  function ShownColumn(p: DerivedPoint, c: Column): Option<real> {
    match c case ValueColumn => p.value case CountColumn => p.count case SumColumn => p.sum
  }

  /** The recorded columns whose growth is shown. */
  predicate IsGrowthColumn(r: Row, c: Column) {
    r.temporality.Cumulative? &&
    if IsDistribution(r.metricType) then c != ValueColumn else IsCounter(r) && c == ValueColumn
  }

  /** Two points of one series with none of it in between. */
  ghost predicate AreConsecutive(rows: set<Row>, q: Row, r: Row) {
    && q in rows && q.series == r.series && q.ts < r.ts
    && forall x :: x in rows && x.series == r.series ==> !(q.ts < x.ts < r.ts)
  }

  lemma ConsecutiveIsPrevious(rows: set<Row>, q: Row, r: Row)
    requires AreConsecutive(rows, q, r)
    ensures IsPrevious(rows, q, r)
  {
  }

  /** A point and the one before it in its series: what is shown is the growth, or everything recorded since a reset. */
  lemma GrowthIsShown(rows: set<Row>, q: Row, r: Row, c: Column)
    requires WellFormed(rows) && AreConsecutive(rows, q, r) && IsGrowthColumn(r, c)
    requires Get(q, c).Some? && Get(r, c).Some?
    ensures var shown := ShownColumn(Derived(rows, r), c);
      && shown.Some?
      && (Get(r, c).value >= Get(q, c).value ==> shown.value + Get(q, c).value == Get(r, c).value)
      && (Get(r, c).value < Get(q, c).value ==> shown.value == Get(r, c).value)
  {
    ConsecutiveIsPrevious(rows, q, r);
    PreviousIsUnique(rows, q, r);
  }

  /** The same in the words of each kind of series. */
  lemma CounterShowsGrowth(rows: set<Row>, q: Row, r: Row)
    requires WellFormed(rows) && AreConsecutive(rows, q, r)
    requires r.metricType == Sum && r.temporality == Cumulative && r.isMonotonic && q.value.Some? && r.value.Some?
    ensures var p := Derived(rows, r);
      && p.value.Some? && p.cumulative == r.value
      && (r.value.value >= q.value.value ==> p.value.value + q.value.value == r.value.value)
      && (r.value.value < q.value.value ==> p.value == r.value)
  {
    GrowthIsShown(rows, q, r, ValueColumn);
  }

  lemma DistributionShowsGrowth(rows: set<Row>, q: Row, r: Row)
    requires WellFormed(rows) && AreConsecutive(rows, q, r) && r.temporality == Cumulative
    requires r.metricType == Histogram || r.metricType == ExponentialHistogram || r.metricType == SummaryType
    requires q.count.Some? && r.count.Some? && q.sum.Some? && r.sum.Some?
    ensures var p := Derived(rows, r);
      && p.count.Some? && p.sum.Some? && p.countCumulative == r.count && p.sumCumulative == r.sum
      && (r.count.value >= q.count.value ==> p.count.value + q.count.value == r.count.value)
      && (r.count.value < q.count.value ==> p.count == r.count)
      && (r.sum.value >= q.sum.value ==> p.sum.value + q.sum.value == r.sum.value)
      && (r.sum.value < q.sum.value ==> p.sum == r.sum)
  {
    GrowthIsShown(rows, q, r, CountColumn);
    GrowthIsShown(rows, q, r, SumColumn);
  }

  /** Nothing else is derived: gauges, deltas and levels are shown as recorded. */
  lemma RecordedIsShown(rows: set<Row>, r: Row)
    ensures var p := Derived(rows, r);
      && p.id == r.id && p.series == r.series && p.ts == r.ts && p.metricType == r.metricType
      && p.min == r.min && p.max == r.max
    ensures r.metricType.Gauge? ==> Derived(rows, r).value == r.value && Derived(rows, r).cumulative == None
    ensures r.metricType.Sum? && (!r.temporality.Cumulative? || !r.isMonotonic) ==> Derived(rows, r).value == r.value
    ensures !r.temporality.Cumulative? && !r.metricType.Gauge? && !r.metricType.Sum? ==>
      Derived(rows, r).count == r.count && Derived(rows, r).sum == r.sum
  {
  }

  /** A distribution's value is the mean of what is shown of it: its count times that is its sum. */
  lemma ShownMeanIsMean(rows: set<Row>, r: Row)
    requires !r.metricType.Gauge? && !r.metricType.Sum?
    ensures var p := Derived(rows, r);
      && p.value.Some?
      && (p.count.Some? && p.count.value > 0.0 && p.sum.Some? ==> p.value.value * p.count.value == p.sum.value)
      && (p.count.None? || p.count.value <= 0.0 || p.sum.None? ==> p.value.value == 0.0)
  {
  }

  /** Consecutive points of one series, each recording the column. */
  ghost predicate IsRun(rows: set<Row>, run: seq<Row>, c: Column) {
    && run != [] && (forall k :: 0 <= k < |run| ==> Get(run[k], c).Some?)
    && (forall k :: 0 < k < |run| ==> AreConsecutive(rows, run[k - 1], run[k]) && IsGrowthColumn(run[k], c))
  }

  /** What a selection shows over a run, its first point aside. */
  ghost function ShownOver(selected: set<Row>, run: seq<Row>, c: Column): real {
    if |run| <= 1 then 0.0
    else
      var shown := ShownColumn(Derived(selected, run[|run| - 1]), c);
      ShownOver(selected, run[..|run| - 1], c) + if shown.Some? then shown.value else 0.0
  }

  /** What the recorded column had reached when it was reset, over all resets of a run. */
  function LostAtResets(run: seq<Row>, c: Column): real
    requires forall k :: 0 <= k < |run| ==> Get(run[k], c).Some?
  {
    if |run| <= 1 then 0.0
    else
      var now, before := Get(run[|run| - 1], c).value, Get(run[|run| - 2], c).value;
      LostAtResets(run[..|run| - 1], c) + if now < before then before else 0.0
  }

  lemma {:induction false} GrowthAddsUp(rows: set<Row>, run: seq<Row>, c: Column)
    requires WellFormed(rows) && IsRun(rows, run, c)
    ensures ShownOver(rows, run, c)
      == Get(run[|run| - 1], c).value - Get(run[0], c).value + LostAtResets(run, c)
  {
    hide Derived, WellFormed, AreConsecutive, IsGrowthColumn, ShownColumn, Get;
    var n := |run| - 1;
    if n > 0 {
      assert run[..n][n - 1] == run[n - 1];
      GrowthAddsUp(rows, run[..n], c);
      GrowthIsShown(rows, run[n - 1], run[n], c);
    }
  }

  /**
   * Over a window that follows its first point, a run shows its last value minus its first, plus what was lost at each
   * reset; without resets that is the growth since the predecessor.
   */
  lemma {:induction false} WindowShowsGrowth(rows: set<Row>, from: Time, to: Time, run: seq<Row>, c: Column)
    requires WellFormed(rows) && IsRun(rows, run, c)
    requires forall k :: 0 < k < |run| ==> run[k] in Window(rows, from, to)
    ensures ShownOver(Selected(rows, from, to), run, c)
      == Get(run[|run| - 1], c).value - Get(run[0], c).value + LostAtResets(run, c)
    ensures (forall k :: 0 < k < |run| ==> Get(run[k - 1], c).value <= Get(run[k], c).value) ==>
      LostAtResets(run, c) == 0.0
  {
    GrowthAddsUp(rows, run, c);
    SameShown(rows, from, to, run, c);
    if forall k :: 0 < k < |run| ==> Get(run[k - 1], c).value <= Get(run[k], c).value { NothingLost(run, c); }
  }

  lemma {:induction false} SameShown(rows: set<Row>, from: Time, to: Time, run: seq<Row>, c: Column)
    requires WellFormed(rows) && IsRun(rows, run, c)
    requires forall k :: 0 < k < |run| ==> run[k] in Window(rows, from, to)
    ensures ShownOver(Selected(rows, from, to), run, c) == ShownOver(rows, run, c)
  {
    hide Derived, Selected, Window, WellFormed, AreConsecutive, IsGrowthColumn, ShownColumn, Get;
    var n := |run| - 1;
    if n > 0 {
      SameShown(rows, from, to, run[..n], c);
      SameColumn(rows, from, to, run[n], c);
    }
  }

  lemma SameColumn(rows: set<Row>, from: Time, to: Time, r: Row, c: Column)
    requires WellFormed(rows) && r in Window(rows, from, to)
    ensures ShownColumn(Derived(Selected(rows, from, to), r), c) == ShownColumn(Derived(rows, r), c)
  {
    WindowDerivesAsHistory(rows, from, to, r);
  }

  lemma {:induction false} NothingLost(run: seq<Row>, c: Column)
    requires forall k :: 0 <= k < |run| ==> Get(run[k], c).Some?
    requires forall k :: 0 < k < |run| ==> Get(run[k - 1], c).value <= Get(run[k], c).value
    ensures LostAtResets(run, c) == 0.0
  {
    if |run| > 1 { NothingLost(run[..|run| - 1], c); }
  }

  /** `sum(c) OVER w` along a delta series: everything the series recorded up to and including the point. */
  function RecordedOver(run: seq<Row>, c: Column): real {
    if run == [] then 0.0
    else RecordedOver(run[..|run| - 1], c) + if Get(run[|run| - 1], c).Some? then Get(run[|run| - 1], c).value else 0.0
  }

  lemma {:induction false} RunningAddsUp(rows: set<Row>, run: seq<Row>, c: Column)
    requires WellFormed(rows) && run != [] && Earlier(rows, run[0]) == {}
    requires forall k :: 0 < k < |run| ==> AreConsecutive(rows, run[k - 1], run[k])
    ensures var total := Running(rows, run[|run| - 1], c);
      && RecordedOver(run, c) == (if total.Some? then total.value else 0.0)
      && (total.Some? <==> exists k :: 0 <= k < |run| && Get(run[k], c).Some?)
  {
    hide Running, WellFormed, AreConsecutive, Get, Earlier;
    var n := |run| - 1;
    RunningStep(rows, run[n], c);
    assert run == run[..n] + [run[n]];
    if n == 0 {
      assert run[..0] == [];
      assert Previous(rows, run[0]) == None;
    } else {
      assert forall k :: 0 <= k < n ==> run[..n][k] == run[k];
      RunningAddsUp(rows, run[..n], c);
      ConsecutiveIsPrevious(rows, run[n - 1], run[n]);
      PreviousIsUnique(rows, run[n - 1], run[n]);
    }
  }

  // ---- Baselines ----

  /** A point with a delta to show; the others are baselines. */
  predicate HasDelta(p: DerivedPoint) { p.value.Some? && (IsDistribution(p.metricType) ==> p.count.Some?) }

  method FilterDerivedPoints(points: seq<DerivedPoint>) returns (filtered: seq<DerivedPoint>)
    ensures filtered == Filter(points, HasDelta)
  {
    filtered := [];
    for i := 0 to |points|
      invariant filtered == Filter(points[..i], HasDelta)
    {
      assert points[..i + 1][..i] == points[..i];
      var p := points[i];
      if p.value.None? { continue; }
      if IsDistribution(p.metricType) && p.count.None? { continue; }
      filtered := filtered + [p];
    }
    assert points[..|points|] == points;
  }

  // ---- The selections ----

  /** Timestamps are distinct per series, and a series has one descriptor. */
  ghost predicate WellFormed(rows: set<Row>) {
    forall q, r :: q in rows && r in rows && q.series == r.series ==>
      (q.ts == r.ts ==> q == r) && q.metricType == r.metricType && q.temporality == r.temporality &&
      q.isMonotonic == r.isMonotonic
  }

  function Window(rows: set<Row>, from: Time, to: Time): set<Row> { set r | r in rows && from <= r.ts < to }

  ghost predicate IsRepresented(rows: set<Row>, from: Time, to: Time, series: Hash) {
    exists w :: w in Window(rows, from, to) && w.series == series && PredecessorRequired(w)
  }

  /** `predecessor_rank = 1`: the last row of a represented series before the window. */
  ghost predicate IsPredecessor(rows: set<Row>, from: Time, to: Time, q: Row) {
    q in rows && q.ts < from && IsRepresented(rows, from, to, q.series) &&
    forall x :: x in rows && x.series == q.series && x.ts < from ==> x.ts <= q.ts
  }

  /** The `points` selection: the window and at most one older row per represented cumulative series. */
  ghost function Selected(rows: set<Row>, from: Time, to: Time): set<Row> {
    Window(rows, from, to) + set q | q in rows && IsPredecessor(rows, from, to, q)
  }

  lemma PreviousIsUnique(rows: set<Row>, q: Row, r: Row)
    requires WellFormed(rows) && IsPrevious(rows, q, r)
    ensures Previous(rows, r) == Some(q)
  {
    var p := Previous(rows, r).value;
    assert p.ts <= q.ts && q.ts <= p.ts;
  }

  /** In the window, `lag` reads the same row from the selection as from the whole history. */
  lemma SelectedHasPrevious(rows: set<Row>, from: Time, to: Time, r: Row)
    requires WellFormed(rows) && r in Window(rows, from, to) && PredecessorRequired(r)
    ensures Previous(Selected(rows, from, to), r) == Previous(rows, r)
  {
    var selected := Selected(rows, from, to);
    assert Earlier(selected, r) <= Earlier(rows, r);
    match Previous(rows, r)
    case None =>
    case Some(q) =>
      if q.ts < from {
        assert IsRepresented(rows, from, to, q.series);
        forall x | x in rows && x.series == q.series && x.ts < from ensures x.ts <= q.ts {
          assert x in Earlier(rows, r);
        }
        assert IsPredecessor(rows, from, to, q);
      }
      assert q in selected;
      assert IsPrevious(selected, q, r);
      PreviousIsUnique(selected, q, r);
  }

  /** What does not depend on where the window starts: everything but the running totals of delta series. */
  ghost function Stable(rows: set<Row>, r: Row): DerivedPoint {
    var d := Derived(rows, r);
    if r.temporality.Delta? then d.(cumulative := None, countCumulative := None, sumCumulative := None) else d
  }

  /** Window plus predecessor derives, at every point of the window, what the whole history derives there. */
  lemma WindowDerivesAsHistory(rows: set<Row>, from: Time, to: Time, r: Row)
    requires WellFormed(rows) && r in Window(rows, from, to)
    ensures Stable(Selected(rows, from, to), r) == Stable(rows, r)
  {
    if PredecessorRequired(r) {
      SelectedHasPrevious(rows, from, to, r);
    }
  }

  /** A predecessor row has nothing to derive a delta against, so filtering baselines always removes it. */
  lemma PredecessorsAreBaselines(rows: set<Row>, from: Time, to: Time, q: Row)
    requires WellFormed(rows) && IsPredecessor(rows, from, to, q)
    ensures !HasDelta(Derived(Selected(rows, from, to), q))
  {
    var selected := Selected(rows, from, to);
    var w :| w in Window(rows, from, to) && w.series == q.series && PredecessorRequired(w);
    assert PredecessorRequired(q);
    forall x | x in selected && x.series == q.series ensures x.ts >= q.ts {
      if x.ts < from { assert IsPredecessor(rows, from, to, x); }
    }
    assert Earlier(selected, q) == {};
  }

  /** The points a reader gets: derived in the selection, baselines dropped, outside the window dropped. */
  ghost function WindowPoints(rows: set<Row>, from: Time, to: Time): set<DerivedPoint> {
    set r | r in Selected(rows, from, to) && HasDelta(Derived(Selected(rows, from, to), r)) && from <= r.ts < to ::
      Stable(Selected(rows, from, to), r)
  }

  /** The reference: derive over the whole history, then restrict to the window. */
  ghost function HistoryPoints(rows: set<Row>, from: Time, to: Time): set<DerivedPoint> {
    set r | r in rows && HasDelta(Derived(rows, r)) && from <= r.ts < to :: Stable(rows, r)
  }

  /** For every history, resets and NULLs included, and every window, the fast query equals the reference. */
  lemma WindowEqualsHistory(rows: set<Row>, from: Time, to: Time)
    requires WellFormed(rows)
    ensures WindowPoints(rows, from, to) == HistoryPoints(rows, from, to)
  {
    forall r | r in Window(rows, from, to)
      ensures Stable(Selected(rows, from, to), r) == Stable(rows, r)
      ensures HasDelta(Derived(Selected(rows, from, to), r)) == HasDelta(Derived(rows, r))
    {
      WindowDerivesAsHistory(rows, from, to, r);
    }
  }

  /** Dropping baselines alone already leaves only points of the window. */
  lemma NoPredecessorIsShown(rows: set<Row>, from: Time, to: Time, r: Row)
    requires WellFormed(rows) && r in Selected(rows, from, to) && HasDelta(Derived(Selected(rows, from, to), r))
    ensures r in Window(rows, from, to) && from <= r.ts < to
  {
    if IsPredecessor(rows, from, to, r) { PredecessorsAreBaselines(rows, from, to, r); }
  }

  // ---- The metrics list counts points without deriving them ----

  function CountedColumn(r: Row): Column { if IsDistribution(r.metricType) then CountColumn else ValueColumn }

  /** The list's glance count: a value, and for lag-derived series any older row (in or before the window). */
  ghost predicate IsCounted(rows: set<Row>, r: Row) {
    Get(r, CountedColumn(r)).Some? && (!PredecessorRequired(r) || Earlier(rows, r) != {})
  }

  /** The count is the number of points shown, except at a point whose predecessor recorded NULL. */
  lemma CountedIffShown(rows: set<Row>, r: Row)
    ensures (IsCounted(rows, r) <==> HasDelta(Derived(rows, r))) <==>
      !(PredecessorRequired(r) && Get(r, CountedColumn(r)).Some? &&
        Previous(rows, r).Some? && Get(Previous(rows, r).value, CountedColumn(r)).None?)
  {
    assert ColumnDelta(rows, r, CountColumn) ==
           if r.temporality.Cumulative? then DeltaOf(r.count, Lag(rows, r, CountColumn)) else r.count;
  }

  /** A point of one cumulative counter. */
  function CounterRow(id: string, ts: Time, value: Option<real>): Row {
    Row(id, 1, ts, value, None, None, None, None, Sum, Cumulative, true)
  }

  /** After a point that recorded no value, five is counted by the list and not shown. */
  lemma CountedButNotShown()
    ensures var empty, five := CounterRow("a", 0, None), CounterRow("b", 1, Some(5.0));
      IsCounted({empty, five}, five) && !HasDelta(Derived({empty, five}, five))
  {
    var empty, five := CounterRow("a", 0, None), CounterRow("b", 1, Some(5.0));
    assert empty in Earlier({empty, five}, five);
    assert Previous({empty, five}, five) == Some(empty);
  }

  // ---- Where a delta series' running total starts ----

  /** The last row of r's series before the window, if any. */
  ghost function BeforeWindow(rows: set<Row>, from: Time, r: Row): Option<Row> {
    Previous(rows, r.(ts := from))
  }

  /** The first row of the window sees no row within it, and the row it does see is the last before the window. */
  lemma FirstInWindow(rows: set<Row>, from: Time, to: Time, r: Row)
    requires WellFormed(rows) && r in Window(rows, from, to)
    requires Previous(rows, r).Some? ==> Previous(rows, r).value.ts < from
    ensures Previous(Window(rows, from, to), r) == None
    ensures BeforeWindow(rows, from, r) == Previous(rows, r)
  {
    assert Earlier(Window(rows, from, to), r) <= Earlier(rows, r);
    assert Earlier(rows, r.(ts := from)) <= Earlier(rows, r);
    if Previous(rows, r).Some? {
      assert IsPrevious(rows, Previous(rows, r).value, r.(ts := from));
      PreviousIsUnique(rows, Previous(rows, r).value, r.(ts := from));
    }
  }

  lemma LaterInWindow(rows: set<Row>, from: Time, to: Time, q: Row, r: Row)
    requires WellFormed(rows) && r in Window(rows, from, to) && Previous(rows, r) == Some(q) && q.ts >= from
    ensures q in Window(rows, from, to) && Previous(Window(rows, from, to), r) == Some(q)
  {
    assert WellFormed(Window(rows, from, to));
    assert IsPrevious(Window(rows, from, to), q, r);
    PreviousIsUnique(Window(rows, from, to), q, r);
  }

  ghost function RunningAt(rows: set<Row>, r: Option<Row>, c: Column): Option<real> {
    match r case None => None case Some(b) => Running(rows, b, c)
  }

  lemma RunningStep(rows: set<Row>, r: Row, c: Column)
    ensures Running(rows, r, c) == Plus(RunningAt(rows, Previous(rows, r), c), Get(r, c))
  {
  }

  lemma PlusAssociates(a: Option<real>, b: Option<real>, c: Option<real>)
    ensures Plus(Plus(a, b), c) == Plus(a, Plus(b, c))
  {
  }

  /** A delta series' total in the window is what its whole-history total gained since the window began. */
  lemma {:induction false} RunningStartsAtWindow(rows: set<Row>, from: Time, to: Time, r: Row, c: Column)
    requires WellFormed(rows) && r in Window(rows, from, to)
    ensures Running(rows, r, c) ==
      Plus(RunningAt(rows, BeforeWindow(rows, from, r), c), Running(Window(rows, from, to), r, c))
    decreases Earlier(rows, r)
  {
    hide Running, Window, Earlier, BeforeWindow, Plus, WellFormed;
    RunningStep(rows, r, c);
    RunningStep(Window(rows, from, to), r, c);
    if Previous(rows, r).Some? && Previous(rows, r).value.ts >= from {
      var q := Previous(rows, r).value;
      EarlierShrinks(rows, q, r);
      LaterInWindow(rows, from, to, q, r);
      RunningStartsAtWindow(rows, from, to, q, c);
      PreviousIsOfSeries(rows, q, r);
      SameBeforeWindow(rows, from, q, r);
      PlusAssociates(RunningAt(rows, BeforeWindow(rows, from, r), c), Running(Window(rows, from, to), q, c), Get(r, c));
    } else {
      FirstInWindow(rows, from, to, r);
      assert Plus(None, Get(r, c)) == Get(r, c) by { PlusNone(Get(r, c)); }
    }
  }

  /** The window's total is the whole total exactly when nothing was recorded before the window,
      or it added up to zero. */
  lemma WindowTotalIsWholeIff(rows: set<Row>, from: Time, to: Time, r: Row, c: Column)
    requires WellFormed(rows) && r in Window(rows, from, to)
    ensures var before := RunningAt(rows, BeforeWindow(rows, from, r), c);
      Running(rows, r, c) == Running(Window(rows, from, to), r, c)
      <==> before.None? || (before.value == 0.0 && Running(Window(rows, from, to), r, c).Some?)
  {
    hide Running, RunningAt, BeforeWindow, Window, WellFormed;
    RunningStartsAtWindow(rows, from, to, r, c);
  }

  /** A point of one delta counter. */
  function DeltaRow(id: string, ts: Time, value: real): Row { CounterRow(id, ts, Some(value)).(temporality := Delta) }

  /** Two points of a delta counter, 5 then 2: from the second on, the total is 2 and not 7. */
  lemma LaterWindowTotalsLess()
    ensures var five, two := DeltaRow("a", 0, 5.0), DeltaRow("b", 1, 2.0);
      && Running({five, two}, two, ValueColumn) == Some(7.0)
      && Running(Window({five, two}, 1, 2), two, ValueColumn) == Some(2.0)
  {
    var five, two := DeltaRow("a", 0, 5.0), DeltaRow("b", 1, 2.0);
    var all := {five, two};
    assert five in Earlier(all, two);
    assert Previous(all, two) == Some(five) && Previous(all, five) == None;
    assert Window(all, 1, 2) == {two};
    assert Previous({two}, two) == None;
  }

  lemma PlusNone(a: Option<real>)
    ensures Plus(None, a) == a
  {
  }

  lemma PreviousIsOfSeries(rows: set<Row>, q: Row, r: Row)
    requires IsPrevious(rows, q, r)
    ensures q.series == r.series
  {
  }

  lemma SameBeforeWindow(rows: set<Row>, from: Time, q: Row, r: Row)
    requires WellFormed(rows) && q.series == r.series
    ensures BeforeWindow(rows, from, q) == BeforeWindow(rows, from, r)
  {
    assert Earlier(rows, q.(ts := from)) == Earlier(rows, r.(ts := from));
    if BeforeWindow(rows, from, r).Some? {
      assert IsPrevious(rows, BeforeWindow(rows, from, r).value, q.(ts := from));
      PreviousIsUnique(rows, BeforeWindow(rows, from, r).value, q.(ts := from));
    }
  }

  // ---- Two windows over the same rows ----

  /** A series that needs no predecessor is selected by the window alone. */
  lemma {:induction false} SelectedRunning(rows: set<Row>, from: Time, to: Time, r: Row, c: Column)
    requires WellFormed(rows) && r in Window(rows, from, to) && !PredecessorRequired(r)
    ensures Running(Selected(rows, from, to), r, c) == Running(Window(rows, from, to), r, c)
    decreases Earlier(rows, r)
  {
    hide Running;
    var selected, window := Selected(rows, from, to), Window(rows, from, to);
    forall q | q in Earlier(selected, r) ensures q in window && !PredecessorRequired(q) {
      assert q in rows && q.series == r.series;
      assert !IsPredecessor(rows, from, to, q);
    }
    assert Earlier(selected, r) == Earlier(window, r);
    RunningStep(selected, r, c);
    RunningStep(window, r, c);
    if Previous(window, r).Some? {
      var q := Previous(window, r).value;
      assert IsPrevious(selected, q, r);
      PreviousIsUnique(selected, q, r);
      assert q in Earlier(rows, r) && q !in Earlier(rows, q);
      SelectedRunning(rows, from, to, q, c);
    }
  }

  /** What the series gained in the wider window before the narrower one begins. */
  ghost function GainedBefore(rows: set<Row>, from: Time, to: Time, start: Time, r: Row, c: Column): Option<real> {
    var window := Window(rows, from, to);
    RunningAt(window, BeforeWindow(window, start, r), c)
  }

  lemma TotalInWiderWindow(rows: set<Row>, from: Time, to: Time, start: Time, end: Time, r: Row, c: Column)
    requires WellFormed(rows) && from <= start && end <= to && r in Window(rows, start, end) && !PredecessorRequired(r)
    ensures Running(Selected(rows, from, to), r, c)
      == Plus(GainedBefore(rows, from, to, start, r, c), Running(Selected(rows, start, end), r, c))
  {
    hide Running, Selected, BeforeWindow;
    SelectedRunning(rows, from, to, r, c);
    SelectedRunning(rows, start, end, r, c);
    assert Window(Window(rows, from, to), start, end) == Window(rows, start, end);
    assert WellFormed(Window(rows, from, to));
    RunningStartsAtWindow(Window(rows, from, to), start, end, r, c);
  }

  /** The columns of which a delta series shows a running total. */
  predicate IsTotalled(r: Row, c: Column) {
    && r.temporality.Delta?
    && if IsDistribution(r.metricType) then !c.ValueColumn? else r.metricType.Sum? && r.isMonotonic && c.ValueColumn?
  }

  /** The wider window adds nothing to the totals at `r`. */
  ghost predicate TotalsAlike(rows: set<Row>, from: Time, to: Time, start: Time, end: Time, r: Row) {
    forall c {:trigger IsTotalled(r, c)} :: IsTotalled(r, c) ==>
      var before := GainedBefore(rows, from, to, start, r, c);
      before.None? || (before.value == 0.0 && Running(Selected(rows, start, end), r, c).Some?)
  }

  /** A point of both windows is derived alike in either exactly when the wider one adds nothing to its totals. */
  lemma DerivedAlikeIff(rows: set<Row>, from: Time, to: Time, start: Time, end: Time, r: Row)
    requires WellFormed(rows) && from <= start && end <= to && r in Window(rows, start, end)
    ensures Stable(Selected(rows, from, to), r) == Stable(Selected(rows, start, end), r)
    ensures Derived(Selected(rows, from, to), r) == Derived(Selected(rows, start, end), r)
      <==> TotalsAlike(rows, from, to, start, end, r)
  {
    hide Running, Selected, GainedBefore, WellFormed;
    WindowDerivesAsHistory(rows, from, to, r);
    WindowDerivesAsHistory(rows, start, end, r);
    if r.temporality.Delta? {
      forall c ensures Running(Selected(rows, from, to), r, c)
        == Plus(GainedBefore(rows, from, to, start, r, c), Running(Selected(rows, start, end), r, c))
      {
        TotalInWiderWindow(rows, from, to, start, end, r, c);
      }
      assert IsTotalled(r, CountColumn) == IsTotalled(r, SumColumn) == IsDistribution(r.metricType);
      assert IsTotalled(r, ValueColumn) == (r.metricType.Sum? && r.isMonotonic);
    }
  }
}
