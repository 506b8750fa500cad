// The browser's own bucketing of raw points, against the server's aggregation of the same observations.
module ChartBuckets {
  import opened Order
  import opened Rows
  import opened MetricDerivation
  import opened MetricAggregate
  import opened Sorting

  // ---- Bucket grids ----

  /** Division and remainder rounding toward zero, as on the browser's big integers. */
  function TruncatedDiv(a: int, b: int): int requires b > 0 { if a >= 0 then a / b else -((-a) / b) }
  function TruncatedMod(a: int, b: int): int requires b > 0 { a - TruncatedDiv(a, b) * b }

  function BucketStart(epochNs: Time, widthNs: int): Time
    requires widthNs > 0
  {
    var quotient := TruncatedDiv(epochNs, widthNs);
    if epochNs < 0 && TruncatedMod(epochNs, widthNs) != 0 then (quotient - 1) * widthNs else quotient * widthNs
  }

  /** The server's `time_bucket`, on a grid anchored at `origin`. */
  function TimeBucket(ts: Time, width: int, origin: Time): Time
    requires width > 0
  {
    origin + (ts - origin) / width * width
  }

  /** The multiple of `w` at or below `t` is unique. */
  lemma FloorIsUnique(t: int, w: int, q: int)
    requires w > 0 && q * w <= t < q * w + w
    ensures t / w == q
  {
    var p := t / w;
    assert p * w <= t < p * w + w;
    if p < q {
      MultiplesApart(p, q, w);
    } else if q < p {
      MultiplesApart(q, p, w);
    }
  }

  lemma MultiplesApart(p: int, q: int, w: int)
    requires w > 0 && p < q
    ensures p * w + w <= q * w
  {
    AtLeastOne(q - p, w);
    assert q * w == p * w + (q - p) * w;
  }

  lemma {:induction false} AtLeastOne(d: int, w: int)
    requires w > 0 && d > 0
    ensures d * w >= w
  {
    if d > 1 {
      AtLeastOne(d - 1, w);
      assert d * w == (d - 1) * w + w;
    }
  }

  /** The correction for times before 1970 makes the browser round down everywhere. */
  lemma BucketStartFloors(t: Time, w: int)
    requires w > 0
    ensures BucketStart(t, w) == t / w * w
    ensures BucketStart(t, w) <= t < BucketStart(t, w) + w
  {
    var q := TruncatedDiv(t, w);
    if t < 0 {
      var p := (-t) / w;
      assert p * w <= -t < p * w + w;
      assert q * w == -(p * w);
      if TruncatedMod(t, w) != 0 {
        assert (q - 1) * w == q * w - w;
        FloorIsUnique(t, w, q - 1);
      } else {
        FloorIsUnique(t, w, q);
      }
    }
  }

  lemma ShiftByMultiple(t: int, k: int, w: int)
    requires w > 0
    ensures k * w + (t - k * w) / w * w == t / w * w
  {
    var q := (t - k * w) / w;
    assert q * w <= t - k * w < q * w + w;
    assert (q + k) * w == q * w + k * w;
    FloorIsUnique(t, w, q + k);
  }

  /** Browser and server cut time into the same buckets exactly when the bucket width divides the server's anchor. */
  lemma GridsAgreeIff(w: int, origin: Time)
    requires w > 0
    ensures (forall t: Time :: TimeBucket(t, w, origin) == BucketStart(t, w)) <==> origin % w == 0
  {
    if origin % w == 0 {
      var k := origin / w;
      assert origin == k * w;
      forall t: Time ensures TimeBucket(t, w, origin) == BucketStart(t, w) {
        BucketStartFloors(t, w);
        ShiftByMultiple(t, k, w);
      }
    } else {
      BucketStartFloors(origin, w);
      ShiftByMultiple(origin - origin, 0, w);
      assert TimeBucket(origin, w, origin) == origin;
      assert origin / w * w == origin - origin % w;
    }
  }

  const SECOND: int := 1_000_000_000

  /** Where DuckDB's `time_bucket` anchors its grids: Monday, 3 January 2000. */
  const ANCHOR: Time := 946_857_600 * SECOND

  /** A width of seven seconds, which divides no whole number of days, cuts at 0 in the browser and
      at -4 s on the server. */
  lemma SevenSecondGridsDiffer()
    ensures BucketStart(0, 7 * SECOND) == 0 && TimeBucket(0, 7 * SECOND, ANCHOR) == -4 * SECOND
    ensures ANCHOR % (7 * SECOND) == 3 * SECOND
  {
  }

  // ---- Bucketing one group's points ----

  datatype DataPoint = DataPoint(series: Hash, ts: Time, value: real, count: Option<real>, sum: Option<real>)

  datatype Cell = Cell(valueSum: real, sampleCount: nat, distributionCount: real, distributionSum: real)

  /** One bucket: its series in order of first appearance, and their running cells. */
  datatype Contributors = Contributors(order: seq<Hash>, cells: map<Hash, Cell>)

  const EMPTY_CELL := Cell(0.0, 0, 0.0, 0.0)

  function Extended(c: Cell, p: DataPoint): Cell {
    var both := p.count.Some? && p.sum.Some?;
    Cell(c.valueSum + p.value, c.sampleCount + 1,
         if both then c.distributionCount + p.count.value else c.distributionCount,
         if both then c.distributionSum + p.sum.value else c.distributionSum)
  }

  predicate InBucket(p: DataPoint, b: Time, bucketOf: Time -> Time) { bucketOf(p.ts) == b }

  function CellOf(points: seq<DataPoint>, s: Hash, b: Time, bucketOf: Time -> Time): Cell {
    if points == [] then EMPTY_CELL
    else
      var p, before := points[|points| - 1], CellOf(points[..|points| - 1], s, b, bucketOf);
      if p.series == s && InBucket(p, b, bucketOf) then Extended(before, p) else before
  }

  /** The series with points in a bucket, in order of first appearance. */
  function SeriesIn(points: seq<DataPoint>, b: Time, bucketOf: Time -> Time): seq<Hash> {
    if points == [] then []
    else
      var p, before := points[|points| - 1], SeriesIn(points[..|points| - 1], b, bucketOf);
      if InBucket(p, b, bucketOf) && p.series !in before then before + [p.series] else before
  }

  function RealSum(xs: seq<Hash>, f: Hash -> real): real {
    if xs == [] then 0.0 else RealSum(xs[..|xs| - 1], f) + f(xs[|xs| - 1])
  }

  function Mean(points: seq<DataPoint>, b: Time, bucketOf: Time -> Time): Hash -> real {
    (s: Hash) => var c := CellOf(points, s, b, bucketOf);
                 if c.sampleCount == 0 then 0.0 else c.valueSum / c.sampleCount as real
  }
  function ValueSums(points: seq<DataPoint>, b: Time, bucketOf: Time -> Time): Hash -> real {
    (s: Hash) => CellOf(points, s, b, bucketOf).valueSum
  }
  function Counts(points: seq<DataPoint>, b: Time, bucketOf: Time -> Time): Hash -> real {
    (s: Hash) => CellOf(points, s, b, bucketOf).distributionCount
  }
  function Sums(points: seq<DataPoint>, b: Time, bucketOf: Time -> Time): Hash -> real {
    (s: Hash) => CellOf(points, s, b, bucketOf).distributionSum
  }

  /** The value the chart shows for one bucket. */
  function ChartValue(points: seq<DataPoint>, t: MetricType, b: Time, bucketOf: Time -> Time): real {
    var order := SeriesIn(points, b, bucketOf);
    if t.Gauge? then RealSum(order, Mean(points, b, bucketOf))
    else
      var count := RealSum(order, Counts(points, b, bucketOf));
      if count > 0.0 then RealSum(order, Sums(points, b, bucketOf)) / count
      else RealSum(order, ValueSums(points, b, bucketOf))
  }

  ghost predicate IsBucketed(points: seq<DataPoint>, bucketOf: Time -> Time, buckets: map<Time, Contributors>) {
    forall b :: (b in buckets <==> SeriesIn(points, b, bucketOf) != []) &&
      (b in buckets ==>
        buckets[b].order == SeriesIn(points, b, bucketOf) &&
        (forall s :: s in buckets[b].cells <==> s in buckets[b].order) &&
        (forall s :: s in buckets[b].cells ==> buckets[b].cells[s] == CellOf(points, s, b, bucketOf)))
  }

  lemma {:induction false} UnseenIsEmpty(points: seq<DataPoint>, s: Hash, b: Time, bucketOf: Time -> Time)
    ensures s !in SeriesIn(points, b, bucketOf) ==> CellOf(points, s, b, bucketOf) == EMPTY_CELL
    ensures s in SeriesIn(points, b, bucketOf) ==> CellOf(points, s, b, bucketOf).sampleCount > 0
  {
    if points != [] {
      UnseenIsEmpty(points[..|points| - 1], s, b, bucketOf);
    }
  }

  lemma BucketedStep(points: seq<DataPoint>, i: nat, bucketOf: Time -> Time, before: map<Time, Contributors>,
                     c: Contributors)
    requires i < |points| && IsBucketed(points[..i], bucketOf, before)
    requires var p := points[i]; var b := bucketOf(p.ts);
      var prior := if b in before then before[b] else Contributors([], map[]);
      var cell := if p.series in prior.cells then prior.cells[p.series] else EMPTY_CELL;
      c == Contributors(if p.series in prior.cells then prior.order else prior.order + [p.series],
                        prior.cells[p.series := Extended(cell, p)])
    ensures IsBucketed(points[..i + 1], bucketOf, before[bucketOf(points[i].ts) := c])
  {
    hide Extended;
    var p, now := points[i], points[..i + 1];
    assert now[..i] == points[..i] && now[i] == p;
    UnseenIsEmpty(points[..i], p.series, bucketOf(p.ts), bucketOf);
  }

  /** Accumulates points into per-bucket, per-series cells; `starts` lists the buckets as they were first met. */
  method CollectBuckets(points: seq<DataPoint>, bucketOf: Time -> Time)
    returns (starts: seq<Time>, buckets: map<Time, Contributors>)
    ensures IsBucketed(points, bucketOf, buckets)
    ensures forall b :: b in buckets ==> b in starts
    ensures forall i :: 0 <= i < |starts| ==> starts[i] in buckets
    ensures forall i, j :: 0 <= i < j < |starts| ==> starts[i] != starts[j]
  {
    starts, buckets := [], map[];
    assert IsBucketed([], bucketOf, buckets);
    for i := 0 to |points|
      invariant IsBucketed(points[..i], bucketOf, buckets)
      invariant forall b :: b in buckets ==> b in starts
      invariant forall j :: 0 <= j < |starts| ==> starts[j] in buckets
      invariant forall j, k :: 0 <= j < k < |starts| ==> starts[j] != starts[k]
    {
      hide IsBucketed;
      var point := points[i];
      var epochNs := bucketOf(point.ts);
      if epochNs !in buckets { starts := starts + [epochNs]; }
      var bucket := if epochNs in buckets then buckets[epochNs] else Contributors([], map[]);
      var cell := if point.series in bucket.cells then bucket.cells[point.series] else EMPTY_CELL;
      var order := if point.series in bucket.cells then bucket.order else bucket.order + [point.series];
      bucket := Contributors(order, bucket.cells[point.series := Extended(cell, point)]);
      BucketedStep(points, i, bucketOf, buckets, bucket);
      buckets := buckets[epochNs := bucket];
    }
    assert points[..|points|] == points;
  }

  /** Reduces one bucket's contributors in order. */
  method BucketValue(c: Contributors, t: MetricType, ghost points: seq<DataPoint>, ghost b: Time,
                     ghost bucketOf: Time -> Time)
    returns (value: real)
    requires c.order == SeriesIn(points, b, bucketOf)
    requires forall s :: s in c.order ==> s in c.cells && c.cells[s] == CellOf(points, s, b, bucketOf)
    ensures value == ChartValue(points, t, b, bucketOf)
  {
    hide SeriesIn, CellOf;
    var means, values, count, sum := 0.0, 0.0, 0.0, 0.0;
    for i := 0 to |c.order|
      invariant means == RealSum(c.order[..i], Mean(points, b, bucketOf))
      invariant values == RealSum(c.order[..i], ValueSums(points, b, bucketOf))
      invariant count == RealSum(c.order[..i], Counts(points, b, bucketOf))
      invariant sum == RealSum(c.order[..i], Sums(points, b, bucketOf))
    {
      assert c.order[..i + 1][..i] == c.order[..i];
      assert c.order[i] in c.order;
      var cell := c.cells[c.order[i]];
      means := means + if cell.sampleCount == 0 then 0.0 else cell.valueSum / cell.sampleCount as real;
      values, count, sum := values + cell.valueSum, count + cell.distributionCount, sum + cell.distributionSum;
    }
    assert c.order[..|c.order|] == c.order;
    value := if t.Gauge? then means else if count > 0.0 then sum / count else values;
  }

  datatype ChartPoint = ChartPoint(timeMs: int, value: real)

  /** Where a bucket is drawn: at its start, or at the left edge of a fixed window that begins later. */
  function ShownTime(start: Time, fixedFrom: Option<int>): int {
    var bucketMs := TruncatedDiv(start, 1_000_000);
    if fixedFrom.Some? && bucketMs < fixedFrom.value then fixedFrom.value else bucketMs
  }

  function Ascending(): Precedence<Time> { (a: Time, b: Time) => a < b }

  /** The chart of one group's points: one value per non-empty bucket, along the time axis. */
  method BucketRawMetricPoints(points: seq<DataPoint>, t: MetricType, bucketOf: Time -> Time, fixedFrom: Option<int>)
    returns (chart: seq<ChartPoint>, starts: seq<Time>)
    ensures IsSortedBy(starts, Ascending()) && |chart| == |starts|
    ensures forall b :: b in starts <==> SeriesIn(points, b, bucketOf) != []
    ensures forall i :: 0 <= i < |chart| ==>
      chart[i] == ChartPoint(ShownTime(starts[i], fixedFrom), ChartValue(points, t, starts[i], bucketOf))
  {
    var found, buckets := CollectBuckets(points, bucketOf);
    starts := OrderBy(found, Ascending());
    SortedStarts(found);
    chart := [];
    for i := 0 to |starts|
      invariant |chart| == i
      invariant forall j :: 0 <= j < i ==>
        chart[j] == ChartPoint(ShownTime(starts[j], fixedFrom), ChartValue(points, t, starts[j], bucketOf))
    {
      assert starts[i] in starts;
      var value := BucketValue(buckets[starts[i]], t, points, starts[i], bucketOf);
      chart := chart + [ChartPoint(ShownTime(starts[i], fixedFrom), value)];
    }
  }

  lemma SortedStarts(found: seq<Time>)
    requires forall i, j :: 0 <= i < j < |found| ==> found[i] != found[j]
    ensures IsSortedBy(OrderBy(found, Ascending()), Ascending())
    ensures forall b :: b in OrderBy(found, Ascending()) <==> b in found
  {
    OrderBySorts(found, Ascending());
    var sorted := OrderBy(found, Ascending());
    forall b ensures b in sorted <==> b in found {
      assert b in sorted <==> b in multiset(sorted);
    }
  }

  lemma TruncationGrows(a: int, b: int, w: int)
    requires a <= b && w > 0
    ensures TruncatedDiv(a, w) <= TruncatedDiv(b, w)
  {
    QuotientGrows(a, b, w);
    QuotientGrows(-b, -a, w);
    if a < 0 <= b { QuotientGrows(0, -a, w); QuotientGrows(0, b, w); }
  }

  lemma QuotientGrows(a: int, b: int, w: int)
    requires a <= b && w > 0
    ensures a / w <= b / w
  {
    if b / w < a / w { MultiplesApart(b / w, a / w, w); }
  }

  /** Without a fixed window a bucket is drawn less than a millisecond from its start, on the side of 1970. */
  lemma ShownAtStart(start: Time)
    ensures var ns := ShownTime(start, None) * 1_000_000;
      if start >= 0 then 0 <= ns <= start < ns + 1_000_000 else ns - 1_000_000 < start <= ns <= 0
  {
  }

  /** With one, there or at its left edge, whichever is later. */
  lemma ShownInsideWindow(start: Time, edge: int)
    ensures var ms, free := ShownTime(start, Some(edge)), ShownTime(start, None);
      ms >= free && ms >= edge && (ms == free || ms == edge)
  {
  }

  /** A later bucket is never drawn to the left of an earlier one, nor any bucket left of a fixed window. */
  lemma ShownTimesAscend(a: Time, b: Time, fixedFrom: Option<int>)
    requires a <= b
    ensures ShownTime(a, fixedFrom) <= ShownTime(b, fixedFrom)
    ensures fixedFrom.Some? ==> fixedFrom.value <= ShownTime(a, fixedFrom)
  {
    TruncationGrows(a, b, 1_000_000);
  }

  // ---- The same observations on the server ----

  /** What the browser receives of a derived observation; baselines are filtered out. */
  predicate IsVisible(t: MetricType, x: Sample) { if IsDistribution(t) then x.count.Some? else x.value.Some? }

  function VisibleValue(t: MetricType, x: Sample): real
    requires IsVisible(t, x)
  {
    if !IsDistribution(t) then x.value.value
    else if x.sum.None? || x.count.value <= 0.0 then 0.0
    else x.sum.value / x.count.value
  }

  function Visible(t: MetricType, xs: seq<Sample>): seq<DataPoint> {
    if xs == [] then []
    else
      var x, before := xs[|xs| - 1], Visible(t, xs[..|xs| - 1]);
      if IsVisible(t, x) then before + [DataPoint(x.series, x.ts, VisibleValue(t, x), x.count, x.sum)] else before
  }

  /** Scalars carry a value only; a distribution's sum is derived only where its count is, and counts never go down. */
  ghost predicate WellShaped(t: MetricType, xs: seq<Sample>) {
    forall i :: 0 <= i < |xs| ==>
      if IsDistribution(t) then (xs[i].sum.Some? ==> xs[i].count.Some?) && OrZero(xs[i].count) >= 0.0
      else xs[i].count.None? && xs[i].sum.None?
  }

  /** As points are converted: a distribution has a count, which is not negative, and a scalar has no count or sum. */
  ghost predicate AreConverted(rows: set<Row>) {
    forall r :: r in rows ==>
      if IsDistribution(r.metricType) then r.count.Some? && r.count.value >= 0.0 else r.count.None? && r.sum.None?
  }

  /** A row of the query's `derived` selection. */
  ghost function SampleOf(rows: set<Row>, r: Row): Sample {
    Sample(r.series, r.ts, ScalarValue(rows, r), ColumnDelta(rows, r, CountColumn), ColumnDelta(rows, r, SumColumn))
  }

  /** What is derived of converted points has the shape the comparison asks for. */
  lemma SamplesAreWellShaped(rows: set<Row>, t: MetricType, selected: seq<Row>, xs: seq<Sample>)
    requires WellFormed(rows) && AreConverted(rows)
    requires |xs| == |selected| && forall i :: 0 <= i < |xs| ==> xs[i] == SampleOf(rows, selected[i])
    requires forall i :: 0 <= i < |xs| ==> selected[i] in rows && selected[i].metricType == t
    ensures WellShaped(t, xs)
  {
    forall i | 0 <= i < |xs|
      ensures if IsDistribution(t) then (xs[i].sum.Some? ==> xs[i].count.Some?) && OrZero(xs[i].count) >= 0.0
              else xs[i].count.None? && xs[i].sum.None?
    {
      var r := selected[i];
      if Previous(rows, r).Some? {
        var q := Previous(rows, r).value;
        assert q in rows && q.series == r.series;
      }
    }
  }

  /** Observations of one series that were counted without a sum. */
  function SumlessCount(xs: seq<Sample>, s: Hash, b: Time, bucketOf: Time -> Time): real {
    if xs == [] then 0.0
    else
      var x := xs[|xs| - 1];
      SumlessCount(xs[..|xs| - 1], s, b, bucketOf) +
      if InCell(x, s, b, bucketOf) && x.sum.None? then OrZero(x.count) else 0.0
  }

  function SumlessCounts(xs: seq<Sample>, b: Time, bucketOf: Time -> Time): Hash -> real {
    (s: Hash) => SumlessCount(xs, s, b, bucketOf)
  }

  predicate SeriesSummed(xs: seq<Sample>, s: Hash, b: Time, bucketOf: Time -> Time) {
    forall i :: 0 <= i < |xs| && InCell(xs[i], s, b, bucketOf) && OrZero(xs[i].count) > 0.0 ==> xs[i].sum.Some?
  }

  /** Every observation counted in the bucket came with a sum. */
  predicate AllSummed(xs: seq<Sample>, b: Time, bucketOf: Time -> Time) {
    forall i :: 0 <= i < |xs| && bucketOf(xs[i].ts) == b && OrZero(xs[i].count) > 0.0 ==> xs[i].sum.Some?
  }

  /** A cell as a SQL sum: NULL until something was added. */
  function Present(c: Cell, v: real): Option<real> { if c.sampleCount == 0 then None else Some(v) }

  lemma {:induction false} UnsampledIsEmpty(points: seq<DataPoint>, s: Hash, b: Time, bucketOf: Time -> Time)
    ensures CellOf(points, s, b, bucketOf).sampleCount == 0 ==> CellOf(points, s, b, bucketOf) == EMPTY_CELL
  {
    if points != [] { UnsampledIsEmpty(points[..|points| - 1], s, b, bucketOf); }
  }

  lemma {:induction false} ScalarCells(t: MetricType, xs: seq<Sample>, s: Hash, b: Time, bucketOf: Time -> Time)
    requires !IsDistribution(t) && WellShaped(t, xs)
    ensures var c := CellOf(Visible(t, xs), s, b, bucketOf);
      CellSum(xs, s, b, bucketOf, ValueColumn) == Present(c, c.valueSum) &&
      CellCount(xs, s, b, bucketOf) == c.sampleCount && c.distributionCount == 0.0
  {
    hide Visible;
    if xs == [] {
      NothingVisible(t);
    } else {
      var n := |xs| - 1;
      ScalarCells(t, xs[..n], s, b, bucketOf);
      VisibleStep(t, xs);
      UnsampledIsEmpty(Visible(t, xs[..n]), s, b, bucketOf);
    }
  }

  lemma {:induction false} DistributionCells(t: MetricType, xs: seq<Sample>, s: Hash, b: Time, bucketOf: Time -> Time)
    requires IsDistribution(t) && WellShaped(t, xs)
    ensures var c := CellOf(Visible(t, xs), s, b, bucketOf);
      OrZero(CellSum(xs, s, b, bucketOf, CountColumn)) == c.distributionCount + SumlessCount(xs, s, b, bucketOf) &&
      OrZero(CellSum(xs, s, b, bucketOf, SumColumn)) == c.distributionSum &&
      c.distributionCount >= 0.0 && (c.distributionCount == 0.0 ==> c.valueSum == 0.0)
  {
    hide Visible;
    if xs == [] {
      NothingVisible(t);
    } else {
      var n := |xs| - 1;
      DistributionCells(t, xs[..n], s, b, bucketOf);
      VisibleStep(t, xs);
    }
  }

  lemma NothingVisible(t: MetricType)
    ensures Visible(t, []) == []
  {
  }

  lemma VisibleStep(t: MetricType, xs: seq<Sample>)
    requires xs != []
    ensures var x, before := xs[|xs| - 1], Visible(t, xs[..|xs| - 1]);
      var all := Visible(t, xs);
      if !IsVisible(t, x) then all == before
      else
        && all != [] && all[..|all| - 1] == before
        && all[|all| - 1] == DataPoint(x.series, x.ts, VisibleValue(t, x), x.count, x.sum)
  {
  }

  function Among(order: seq<Hash>, f: Hash -> real): Hash -> Option<real> {
    (s: Hash) => if s in order then Some(f(s)) else None
  }

  /** Summing over all series and summing over the contributors in first-seen order is the same. */
  lemma {:induction false} SumOverContributors(series: seq<Hash>, order: seq<Hash>, f: Hash -> real)
    requires Distinct(series) && Distinct(order) && forall i :: 0 <= i < |order| ==> order[i] in series
    ensures ListSum(series, Among(order, f)) == if order == [] then None else Some(RealSum(order, f))
  {
    if order == [] {
      ListSumNothing(series, Among(order, f));
    } else {
      var n := |order| - 1;
      SumOverContributors(series, order[..n], f);
      forall i | 0 <= i < |series|
        ensures Among(order, f)(series[i]) ==
          if series[i] == order[n] then Plus(Among(order[..n], f)(series[i]), Some(f(order[n])))
          else Among(order[..n], f)(series[i])
      {
        assert order[n] !in order[..n];
        assert order == order[..n] + [order[n]];
      }
      ListSumGains(series, Among(order[..n], f), Among(order, f), order[n], Some(f(order[n])));
    }
  }

  lemma {:induction false} SeriesInDistinct(points: seq<DataPoint>, b: Time, bucketOf: Time -> Time)
    ensures Distinct(SeriesIn(points, b, bucketOf))
    ensures forall s :: s in SeriesIn(points, b, bucketOf) ==> exists i :: 0 <= i < |points| && points[i].series == s
  {
    if points != [] {
      var n := |points| - 1;
      SeriesInDistinct(points[..n], b, bucketOf);
      assert forall i :: 0 <= i < n ==> points[..n][i] == points[i];
    }
  }

  /** The value the server emits for the group in one bucket. */
  function ServerValue(xs: seq<Sample>, t: MetricType, series: seq<Hash>, b: Time,
                       bucketOf: Time -> Time): Option<real> {
    OutValue(t, ListSum(series, CellValues(xs, t, b, bucketOf)),
             ListSum(series, Cells(xs, b, bucketOf, CountColumn)), ListSum(series, Cells(xs, b, bucketOf, SumColumn)))
  }

  lemma {:induction false} RealSumSame(xs: seq<Hash>, f: Hash -> real, g: Hash -> real)
    requires forall i :: 0 <= i < |xs| ==> f(xs[i]) == g(xs[i])
    ensures RealSum(xs, f) == RealSum(xs, g)
  {
    if xs != [] { RealSumSame(xs[..|xs| - 1], f, g); }
  }

  lemma {:induction false} ZeroCountMeansZeroValue(t: MetricType, xs: seq<Sample>, order: seq<Hash>, b: Time,
          bucketOf: Time -> Time)
    requires IsDistribution(t) && WellShaped(t, xs)
    ensures RealSum(order, Counts(Visible(t, xs), b, bucketOf)) >= 0.0
    ensures RealSum(order, Counts(Visible(t, xs), b, bucketOf)) == 0.0 ==>
      RealSum(order, ValueSums(Visible(t, xs), b, bucketOf)) == 0.0
  {
    if order != [] {
      ZeroCountMeansZeroValue(t, xs, order[..|order| - 1], b, bucketOf);
      DistributionCells(t, xs, order[|order| - 1], b, bucketOf);
    }
  }

  ghost predicate HasSample(xs: seq<Sample>, s: Hash) { exists j :: 0 <= j < |xs| && xs[j].series == s }

  lemma {:induction false} VisibleSeries(t: MetricType, xs: seq<Sample>, i: nat)
    requires i < |Visible(t, xs)|
    ensures HasSample(xs, Visible(t, xs)[i].series)
  {
    var n := |xs| - 1;
    var before := Visible(t, xs[..n]);
    VisibleStep(t, xs);
    if i < |before| {
      VisibleSeries(t, xs[..n], i);
      var j :| 0 <= j < n && xs[..n][j].series == before[i].series;
      assert xs[j].series == before[i].series;
    } else {
      assert xs[n].series == Visible(t, xs)[i].series;
    }
  }

  lemma ScalarChartMatches(t: MetricType, xs: seq<Sample>, series: seq<Hash>, b: Time, bucketOf: Time -> Time)
    requires !IsDistribution(t) && WellShaped(t, xs) && Distinct(series)
    requires forall s :: s in SeriesIn(Visible(t, xs), b, bucketOf) ==> s in series
    ensures ServerValue(xs, t, series, b, bucketOf)
      == if SeriesIn(Visible(t, xs), b, bucketOf) == [] then None else Some(ChartValue(Visible(t, xs), t, b, bucketOf))
  {
    var p, order := Visible(t, xs), SeriesIn(Visible(t, xs), b, bucketOf);
    SeriesInDistinct(p, b, bucketOf);
    var f := if t.Gauge? then Mean(p, b, bucketOf) else ValueSums(p, b, bucketOf);
    forall i | 0 <= i < |series| ensures CellValues(xs, t, b, bucketOf)(series[i]) == Among(order, f)(series[i]) {
      ScalarCells(t, xs, series[i], b, bucketOf);
      UnseenIsEmpty(p, series[i], b, bucketOf);
    }
    ListSumSame(series, CellValues(xs, t, b, bucketOf), Among(order, f));
    SumOverContributors(series, order, f);
    if !t.Gauge? { NoCounts(t, xs, order, b, bucketOf); }
  }

  lemma {:induction false} NoCounts(t: MetricType, xs: seq<Sample>, order: seq<Hash>, b: Time, bucketOf: Time -> Time)
    requires !IsDistribution(t) && WellShaped(t, xs)
    ensures RealSum(order, Counts(Visible(t, xs), b, bucketOf)) == 0.0
  {
    if order != [] {
      NoCounts(t, xs, order[..|order| - 1], b, bucketOf);
      ScalarCells(t, xs, order[|order| - 1], b, bucketOf);
    }
  }

  function OrZeros(f: Hash -> Option<real>): Hash -> real { (s: Hash) => OrZero(f(s)) }

  lemma {:induction false} ListSumOrZero(series: seq<Hash>, f: Hash -> Option<real>)
    ensures OrZero(ListSum(series, f)) == RealSum(series, OrZeros(f))
  {
    if series != [] { ListSumOrZero(series[..|series| - 1], f); }
  }

  lemma {:induction false} RealSumPlus(xs: seq<Hash>, f: Hash -> real, g: Hash -> real, h: Hash -> real)
    requires forall i :: 0 <= i < |xs| ==> h(xs[i]) == f(xs[i]) + g(xs[i])
    ensures RealSum(xs, h) == RealSum(xs, f) + RealSum(xs, g)
  {
    if xs != [] { RealSumPlus(xs[..|xs| - 1], f, g, h); }
  }

  /** Series without points add nothing, so summing over the contributors is summing over all. */
  lemma SumOverAll(series: seq<Hash>, order: seq<Hash>, f: Hash -> real)
    requires Distinct(series) && Distinct(order) && forall i :: 0 <= i < |order| ==> order[i] in series
    requires forall s :: s !in order ==> f(s) == 0.0
    ensures RealSum(series, f) == RealSum(order, f)
  {
    SumOverContributors(series, order, f);
    ListSumOrZero(series, Among(order, f));
    RealSumSame(series, OrZeros(Among(order, f)), f);
  }

  lemma {:induction false} SumlessIsNatural(t: MetricType, xs: seq<Sample>, s: Hash, b: Time, bucketOf: Time -> Time)
    requires IsDistribution(t) && WellShaped(t, xs)
    ensures SumlessCount(xs, s, b, bucketOf) >= 0.0
    ensures SumlessCount(xs, s, b, bucketOf) == 0.0 <==> SeriesSummed(xs, s, b, bucketOf)
  {
    if xs != [] {
      SumlessIsNatural(t, xs[..|xs| - 1], s, b, bucketOf);
      assert forall i :: 0 <= i < |xs| - 1 ==> xs[..|xs| - 1][i] == xs[i];
    }
  }

  lemma {:induction false} ZeroWhenAllZero(xs: seq<Hash>, f: Hash -> real)
    requires forall i :: 0 <= i < |xs| ==> f(xs[i]) >= 0.0
    ensures RealSum(xs, f) >= 0.0
    ensures RealSum(xs, f) == 0.0 <==> forall i :: 0 <= i < |xs| ==> f(xs[i]) == 0.0
  {
    if xs != [] { ZeroWhenAllZero(xs[..|xs| - 1], f); }
  }

  lemma SumlessIff(t: MetricType, xs: seq<Sample>, series: seq<Hash>, b: Time, bucketOf: Time -> Time)
    requires IsDistribution(t) && WellShaped(t, xs)
    requires forall i :: 0 <= i < |xs| ==> xs[i].series in series
    ensures RealSum(series, SumlessCounts(xs, b, bucketOf)) >= 0.0
    ensures RealSum(series, SumlessCounts(xs, b, bucketOf)) == 0.0 <==> AllSummed(xs, b, bucketOf)
  {
    hide SumlessCount, WellShaped;
    forall s ensures SumlessCount(xs, s, b, bucketOf) >= 0.0 &&
      (SumlessCount(xs, s, b, bucketOf) == 0.0 <==> SeriesSummed(xs, s, b, bucketOf))
    {
      SumlessIsNatural(t, xs, s, b, bucketOf);
    }
    ZeroWhenAllZero(series, SumlessCounts(xs, b, bucketOf));
  }

  /** The columns of a distribution's bucket, in terms of the chart's own cells. */
  lemma DistributionTotals(t: MetricType, xs: seq<Sample>, series: seq<Hash>, b: Time, bucketOf: Time -> Time)
    requires IsDistribution(t) && WellShaped(t, xs) && Distinct(series)
    requires forall s :: s in SeriesIn(Visible(t, xs), b, bucketOf) ==> s in series
    ensures var p, order := Visible(t, xs), SeriesIn(Visible(t, xs), b, bucketOf);
      && OrZero(ListSum(series, Cells(xs, b, bucketOf, CountColumn)))
        == RealSum(order, Counts(p, b, bucketOf)) + RealSum(series, SumlessCounts(xs, b, bucketOf))
      && OrZero(ListSum(series, Cells(xs, b, bucketOf, SumColumn))) == RealSum(order, Sums(p, b, bucketOf))
  {
    var p, order := Visible(t, xs), SeriesIn(Visible(t, xs), b, bucketOf);
    var counts, sums := Cells(xs, b, bucketOf, CountColumn), Cells(xs, b, bucketOf, SumColumn);
    SeriesInDistinct(p, b, bucketOf);
    hide Visible, CellOf, SeriesIn, CellSum, SumlessCount, WellShaped, RealSum, ListSum;
    forall s
      ensures OrZeros(counts)(s) == Counts(p, b, bucketOf)(s) + SumlessCounts(xs, b, bucketOf)(s)
      ensures OrZeros(sums)(s) == Sums(p, b, bucketOf)(s)
      ensures s !in order ==> Counts(p, b, bucketOf)(s) == Sums(p, b, bucketOf)(s) == 0.0
    {
      DistributionCells(t, xs, s, b, bucketOf);
      UnseenIsEmpty(p, s, b, bucketOf);
    }
    ListSumOrZero(series, counts);
    ListSumOrZero(series, sums);
    RealSumPlus(series, Counts(p, b, bucketOf), SumlessCounts(xs, b, bucketOf), OrZeros(counts));
    RealSumSame(series, OrZeros(sums), Sums(p, b, bucketOf));
    SumOverAll(series, order, Counts(p, b, bucketOf));
    SumOverAll(series, order, Sums(p, b, bucketOf));
  }

  /** One sum over two different counts. */
  lemma SameMeanIff(sum: real, count: real, more: real)
    requires count > 0.0 && more >= 0.0
    ensures sum / (count + more) == sum / count <==> more == 0.0 || sum == 0.0
  {
    var x, y := sum / (count + more), sum / count;
    assert sum == Times(count, y) && sum == Times(count + more, x);
    if x == y {
      assert Times(count + more, x) == Times(count, x) + Times(more, x);
      assert Times(more, x) == 0.0;
    }
  }

  /** A mean over all observations and a mean over those with a sum. */
  lemma ShownMeansIff(sum: real, count: real, more: real)
    requires count >= 0.0 && more >= 0.0
    ensures (if count + more <= 0.0 then 0.0 else sum / (count + more)) == (if count > 0.0 then sum / count else 0.0)
      <==> more == 0.0 || sum == 0.0
  {
    if count > 0.0 {
      SameMeanIff(sum, count, more);
    } else if more > 0.0 {
      MeanTimesCount(sum, more, sum / more);
    }
  }

  /** What the server's row of a distribution is shown as. */
  lemma ShownDistribution(t: MetricType, value: Option<real>, count: Option<real>, sum: Option<real>)
    requires IsDistribution(t) && OrZero(count) >= 0.0
    ensures OrZero(OutValue(t, value, count, sum)) == if OrZero(count) <= 0.0 then 0.0 else OrZero(sum) / OrZero(count)
  {
  }

  lemma DistributionChartMatches(t: MetricType, xs: seq<Sample>, series: seq<Hash>, b: Time, bucketOf: Time -> Time)
    requires IsDistribution(t) && WellShaped(t, xs) && Distinct(series)
    requires forall i :: 0 <= i < |xs| ==> xs[i].series in series
    requires forall s :: s in SeriesIn(Visible(t, xs), b, bucketOf) ==> s in series
    ensures OrZero(ServerValue(xs, t, series, b, bucketOf)) == ChartValue(Visible(t, xs), t, b, bucketOf)
      <==> AllSummed(xs, b, bucketOf) || OrZero(ListSum(series, Cells(xs, b, bucketOf, SumColumn))) == 0.0
  {
    hide Visible, SeriesIn, WellShaped, AllSummed, RealSum, ListSum, OutValue, OrZero;
    var p, order := Visible(t, xs), SeriesIn(Visible(t, xs), b, bucketOf);
    DistributionTotals(t, xs, series, b, bucketOf);
    SumlessIff(t, xs, series, b, bucketOf);
    ZeroCountMeansZeroValue(t, xs, order, b, bucketOf);
    var count, more := RealSum(order, Counts(p, b, bucketOf)), RealSum(series, SumlessCounts(xs, b, bucketOf));
    ShownDistribution(t, ListSum(series, CellValues(xs, t, b, bucketOf)),
                      ListSum(series, Cells(xs, b, bucketOf, CountColumn)),
                      ListSum(series, Cells(xs, b, bucketOf, SumColumn)));
    ShownMeansIff(RealSum(order, Sums(p, b, bucketOf)), count, more);
  }

  /**
   * On one grid, browser and server show the same value in every bucket: always for scalars, and for a distribution
   * exactly when every counted observation came with a sum, or the sums add up to nothing. The server divides by all
   * observations, the browser by those with a sum.
   */
  lemma ChartMatchesServerIff(t: MetricType, xs: seq<Sample>, series: seq<Hash>, b: Time, bucketOf: Time -> Time)
    requires WellShaped(t, xs) && Distinct(series)
    requires forall i :: 0 <= i < |xs| ==> xs[i].series in series
    ensures var sum := OrZero(ListSum(series, Cells(xs, b, bucketOf, SumColumn)));
      OrZero(ServerValue(xs, t, series, b, bucketOf)) == ChartValue(Visible(t, xs), t, b, bucketOf)
      <==> !IsDistribution(t) || AllSummed(xs, b, bucketOf) || sum == 0.0
  {
    SeriesInDistinct(Visible(t, xs), b, bucketOf);
    forall s | s in SeriesIn(Visible(t, xs), b, bucketOf) ensures s in series {
      var i :| 0 <= i < |Visible(t, xs)| && Visible(t, xs)[i].series == s;
      VisibleSeries(t, xs, i);
    }
    if IsDistribution(t) {
      DistributionChartMatches(t, xs, series, b, bucketOf);
    } else {
      ScalarChartMatches(t, xs, series, b, bucketOf);
    }
  }

  /** Two points of one histogram, two observations each, of which only the second recorded a sum: 8. */
  const HALF_SUMMED: seq<Sample> := [Sample(1, 0, None, Some(2.0), None), Sample(1, 1, None, Some(2.0), Some(8.0))]

  const ONE_BUCKET: Time -> Time := _ => 0

  lemma HalfSummedCells()
    ensures CellSum(HALF_SUMMED, 1, 0, ONE_BUCKET, CountColumn) == Some(4.0)
    ensures CellSum(HALF_SUMMED, 1, 0, ONE_BUCKET, SumColumn) == Some(8.0)
    ensures Visible(Histogram, HALF_SUMMED)
      == [DataPoint(1, 0, 0.0, Some(2.0), None), DataPoint(1, 1, 4.0, Some(2.0), Some(8.0))]
  {
    assert HALF_SUMMED[..1] == [HALF_SUMMED[0]] && [HALF_SUMMED[0]][..0] == [];
    assert Visible(Histogram, [HALF_SUMMED[0]]) == [DataPoint(1, 0, 0.0, Some(2.0), None)];
  }

  lemma HalfSummedSeries(points: seq<DataPoint>)
    requires points == [DataPoint(1, 0, 0.0, Some(2.0), None), DataPoint(1, 1, 4.0, Some(2.0), Some(8.0))]
    ensures SeriesIn(points, 0, ONE_BUCKET) == [1]
    ensures CellOf(points, 1, 0, ONE_BUCKET) == Cell(4.0, 2, 2.0, 8.0)
  {
    assert points[..1] == [points[0]] && points[..1][..0] == [];
    assert SeriesIn(points[..1], 0, ONE_BUCKET) == [1];
    assert CellOf(points[..1], 1, 0, ONE_BUCKET) == Cell(0.0, 1, 0.0, 0.0);
  }

  /** The server shows a mean of 2, the browser one of 4. */
  lemma HalfSummedParts()
    ensures ServerValue(HALF_SUMMED, Histogram, [1], 0, ONE_BUCKET) == Some(2.0)
    ensures ChartValue(Visible(Histogram, HALF_SUMMED), Histogram, 0, ONE_BUCKET) == 4.0
  {
    hide CellSum, SeriesIn, CellOf, Visible;
    HalfSummedCells();
    var points, one: seq<Hash> := Visible(Histogram, HALF_SUMMED), [1];
    HalfSummedSeries(points);
    assert one[..0] == [];
    assert ListSum(one, Cells(HALF_SUMMED, 0, ONE_BUCKET, CountColumn)) == Some(4.0);
    assert ListSum(one, Cells(HALF_SUMMED, 0, ONE_BUCKET, SumColumn)) == Some(8.0);
    assert RealSum(one, Counts(points, 0, ONE_BUCKET)) == 2.0 && RealSum(one, Sums(points, 0, ONE_BUCKET)) == 8.0;
  }
}
