// Window-wide histogram statistics: each point's own share of a cumulative series, gathered into one
// bucket list per group.
module Distribution {
  import opened Order
  import opened Quantile
  import opened Sorting

  /** A histogram_layouts row as joined to a point; `NoLayout` when there is none. */
  datatype Layout =
    | Explicit(bounds: seq<real>)
    | Exponential(scale: Option<int>, zeroThreshold: real)
    | NoLayout

  /** A row of the points query; `group` is the identity of its breakdown group. */
  datatype Point = Point(
    series: int, inWindow: bool, group: string, cumulative: bool, start: Option<int>,
    count: Option<nat>, sum: Option<real>, min: Option<real>, max: Option<real>,
    layoutHash: Option<int>, layout: Layout,
    explicitCounts: seq<nat>, zeroCount: nat,
    positiveOffset: int, positive: seq<nat>, negativeOffset: int, negative: seq<nat>)

  /** `base^index` for the base a scale stands for; used only as positive and increasing in the index. */
  type Power = (int, int) -> real

  ghost predicate IsPower(power: Power) {
    forall s, i, j :: i <= j ==> 0.0 < power(s, i) <= power(s, j)
  }

  function PointCounts(p: Point): (counts: seq<nat>) {
    if p.layout.Explicit? then p.explicitCounts else p.negative + [p.zeroCount] + p.positive
  }

  // ---- Subtracting the previous cumulative counts ----

  ghost predicate Dominates(current: seq<nat>, previous: seq<nat>) {
    |current| == |previous| && forall i :: 0 <= i < |current| ==> previous[i] <= current[i]
  }

  ghost function Differences(current: seq<nat>, previous: seq<nat>): (d: seq<nat>)
    requires Dominates(current, previous)
    ensures |d| == |current| && forall i :: 0 <= i < |current| ==> d[i] + previous[i] == current[i]
  {
    seq(|current|, i requires 0 <= i < |current| => (current[i] - previous[i]) as nat)
  }

  /** Position-wise differences, or nothing when a bucket went down or the lengths differ. */
  method SubtractCounts(current: seq<nat>, previous: seq<nat>) returns (result: Option<seq<nat>>)
    ensures result == if Dominates(current, previous) then Some(Differences(current, previous)) else None
  {
    if |current| != |previous| { return None; }
    var differences: seq<nat> := [];
    for i := 0 to |current|
      invariant |differences| == i
      invariant forall k :: 0 <= k < i ==> differences[k] + previous[k] == current[k]
    {
      if current[i] < previous[i] { return None; }
      differences := differences + [current[i] - previous[i]];
    }
    assert differences == Differences(current, previous);
    return Some(differences);
  }

  /** What one point adds to its group. */
  datatype Share = Share(counts: seq<nat>, count: Option<real>, sum: Option<real>)

  function RealOf(n: Option<nat>): Option<real> { if n.None? then None else Some(n.value as real) }

  function SubtractCount(current: Option<nat>, previous: Option<nat>): Option<real> {
    if current.None? || previous.None? || current.value < previous.value then None
    else Some((current.value - previous.value) as real)
  }

  function SubtractSum(current: Option<real>, previous: Option<real>): Option<real> {
    if current.None? || previous.None? then None else Some(current.value - previous.value)
  }

  /** `previous` is the baseline of `p`: the row before it, of the same series and layout. */
  predicate IsBaseline(p: Point, previous: Option<Point>) {
    && previous.Some? && previous.value.series == p.series
    && p.layoutHash.Some? && previous.value.layoutHash == p.layoutHash
  }

  predicate IsReset(p: Point, previous: Point) {
    || (p.start.Some? && previous.start.Some? && p.start != previous.start)
    || (p.count.Some? && previous.count.Some? && p.count.value < previous.count.value)
  }

  ghost predicate Continues(p: Point, previous: Point) {
    !IsReset(p, previous) && Dominates(PointCounts(p), PointCounts(previous))
  }

  /** The observations `p` adds: its own, or the growth since its baseline; nothing for a
      cumulative point without one. */
  ghost function ShareOf(p: Point, previous: Option<Point>): Option<Share> {
    if !p.cumulative then Some(Share(PointCounts(p), RealOf(p.count), p.sum))
    else if !IsBaseline(p, previous) then None
    else if !Continues(p, previous.value) then Some(Share(PointCounts(p), RealOf(p.count), p.sum))
    else Some(Share(
      Differences(PointCounts(p), PointCounts(previous.value)),
      SubtractCount(p.count, previous.value.count), SubtractSum(p.sum, previous.value.sum)))
  }

  /** The first half of adding a point: which counts, count and sum it stands for. */
  method DeriveShare(p: Point, previous: Option<Point>, pointCounts: seq<nat>) returns (share: Option<Share>)
    requires pointCounts == PointCounts(p)
    ensures share == ShareOf(p, previous)
    ensures share.Some? && share.value.count.Some? ==> share.value.count.value >= 0.0
  {
    hide PointCounts, Dominates, Differences;
    var counts, count, sum := pointCounts, RealOf(p.count), p.sum;
    if p.cumulative {
      if previous.None? || previous.value.series != p.series
        || p.layoutHash.None? || previous.value.layoutHash.None? || p.layoutHash != previous.value.layoutHash {
        return None;
      }
      var reset := p.start.Some? && previous.value.start.Some? && p.start != previous.value.start;
      reset := reset || (p.count.Some? && previous.value.count.Some? && p.count.value < previous.value.count.value);
      if !reset {
        var difference := SubtractCounts(counts, PointCounts(previous.value));
        if difference.Some? {
          counts := difference.value;
          count := SubtractCount(p.count, previous.value.count);
          sum := SubtractSum(p.sum, previous.value.sum);
        }
      }
    }
    share := Some(Share(counts, count, sum));
  }

  // ---- Buckets of one point ----

  predicate HasShape(p: Point, counts: seq<nat>) {
    match p.layout
    case Explicit(bounds) => |counts| == |bounds| + 1
    case Exponential(scale, _) => scale.Some? && |counts| == |p.negative| + 1 + |p.positive|
    case NoLayout => false
  }

  function ExplicitLow(p: Point, i: nat): real
    requires p.layout.Explicit? && i <= |p.layout.bounds|
  {
    if i > 0 then p.layout.bounds[i - 1]
    else if p.min.Some? then p.min.value
    else if p.layout.bounds != [] && p.layout.bounds[0] < 0.0 then p.layout.bounds[0]
    else 0.0
  }

  function ExplicitHigh(p: Point, i: nat): real
    requires p.layout.Explicit? && i <= |p.layout.bounds|
  {
    if i < |p.layout.bounds| then p.layout.bounds[i]
    else if p.max.Some? then p.max.value
    else if ExplicitLow(p, i) > 0.0 then ExplicitLow(p, i)
    else 0.0
  }

  /** The bucket at a position: explicit, or negative, zero and positive exponential ones in that order. */
  function BucketAt(p: Point, i: nat, count: nat, power: Power): Bucket
    requires p.layout.Explicit? ==> i <= |p.layout.bounds|
    requires !p.layout.NoLayout? && (p.layout.Exponential? ==> p.layout.scale.Some?)
  {
    if p.layout.Explicit? then Bucket(ExplicitLow(p, i), ExplicitHigh(p, i), count as real, false)
    else
      var scale := p.layout.scale.value;
      if i < |p.negative| then
        var index := p.negativeOffset + i;
        Bucket(-power(scale, index + 1), -power(scale, index), count as real, true)
      else if i == |p.negative| then
        Bucket(-p.layout.zeroThreshold, p.layout.zeroThreshold, count as real, false)
      else
        var index := p.positiveOffset + (i - |p.negative| - 1);
        Bucket(power(scale, index), power(scale, index + 1), count as real, true)
  }

  /** The buckets of the first `n` positions; empty ones are left out. */
  function EmittedUpTo(p: Point, counts: seq<nat>, n: nat, power: Power): seq<Bucket>
    requires HasShape(p, counts) && n <= |counts|
  {
    if n == 0 then []
    else
      EmittedUpTo(p, counts, n - 1, power)
      + (if counts[n - 1] == 0 then [] else [BucketAt(p, n - 1, counts[n - 1], power)])
  }

  function Emitted(p: Point, counts: seq<nat>, power: Power): seq<Bucket> {
    if HasShape(p, counts) then EmittedUpTo(p, counts, |counts|, power) else []
  }

  method ExplicitBuckets(p: Point, counts: seq<nat>, power: Power) returns (result: seq<Bucket>)
    requires p.layout.Explicit?
    ensures result == Emitted(p, counts, power)
  {
    var bounds := p.layout.bounds;
    if |counts| != |bounds| + 1 { return []; }
    result := [];
    for i := 0 to |counts|
      invariant result == EmittedUpTo(p, counts, i, power)
    {
      if counts[i] == 0 { continue; }
      // None is an infinite edge, replaced by what is known of the observations.
      var low: Option<real>, high: Option<real> := None, None;
      if i > 0 { low := Some(bounds[i - 1]); }
      if i < |bounds| { high := Some(bounds[i]); }
      if low.None? {
        if p.min.Some? { low := p.min; }
        else { low := Some(if high.Some? && high.value < 0.0 then high.value else 0.0); }
      }
      if high.None? {
        if p.max.Some? { high := p.max; }
        else { high := Some(if low.value > 0.0 then low.value else 0.0); }
      }
      result := result + [Bucket(low.value, high.value, counts[i] as real, false)];
    }
  }

  method ExponentialBuckets(p: Point, counts: seq<nat>, power: Power) returns (result: seq<Bucket>)
    requires p.layout.Exponential?
    ensures result == Emitted(p, counts, power)
  {
    if p.layout.scale.None? { return []; }
    var scale, negativeLen := p.layout.scale.value, |p.negative|;
    if |counts| != negativeLen + 1 + |p.positive| { return []; }
    result := [];
    for i := 0 to negativeLen
      invariant result == EmittedUpTo(p, counts, i, power)
    {
      if counts[i] == 0 { continue; }
      var index := p.negativeOffset + i;
      result := result + [Bucket(-power(scale, index + 1), -power(scale, index), counts[i] as real, true)];
    }
    var zero := counts[negativeLen];
    if zero > 0 {
      var threshold := p.layout.zeroThreshold;
      result := result + [Bucket(-threshold, threshold, zero as real, false)];
    }
    for i := 0 to |p.positive|
      invariant result == EmittedUpTo(p, counts, negativeLen + 1 + i, power)
    {
      var count := counts[negativeLen + 1 + i];
      if count == 0 { continue; }
      var index := p.positiveOffset + i;
      result := result + [Bucket(power(scale, index), power(scale, index + 1), count as real, true)];
    }
  }

  method BucketsForPoint(p: Point, counts: seq<nat>, power: Power) returns (result: seq<Bucket>)
    ensures result == Emitted(p, counts, power)
  {
    if p.layout.Explicit? { result := ExplicitBuckets(p, counts, power); return; }
    if !p.layout.Exponential? || p.layout.scale.None? { return []; }
    result := ExponentialBuckets(p, counts, power);
  }

  // ---- What the emitted buckets hold ----

  function CountsUpTo(counts: seq<nat>, n: nat): nat
    requires n <= |counts|
  {
    if n == 0 then 0 else CountsUpTo(counts, n - 1) + counts[n - 1]
  }

  function CountsTotal(counts: seq<nat>): nat { CountsUpTo(counts, |counts|) }

  lemma {:induction false} TotalAppend(a: seq<Bucket>, b: seq<Bucket>)
    ensures Total(a + b) == Total(a) + Total(b)
  {
    if b == [] {
      assert a + b == a;
    } else {
      TotalAppend(a, b[..|b| - 1]);
      assert (a + b)[..|a + b| - 1] == a + b[..|b| - 1];
    }
  }

  lemma {:induction false} CdfAppend(a: seq<Bucket>, b: seq<Bucket>, x: real, f: Interpolation)
    ensures Cdf(a + b, x, f) == Cdf(a, x, f) + Cdf(b, x, f)
  {
    hide Mass;
    if b == [] {
      assert a + b == a;
    } else {
      CdfAppend(a, b[..|b| - 1], x, f);
      assert (a + b)[..|a + b| - 1] == a + b[..|b| - 1];
    }
  }

  lemma {:induction false} UpToMass(p: Point, counts: seq<nat>, n: nat, power: Power)
    requires HasShape(p, counts) && n <= |counts|
    ensures Total(EmittedUpTo(p, counts, n, power)) == CountsUpTo(counts, n) as real
  {
    if n > 0 {
      UpToMass(p, counts, n - 1, power);
      var rest := EmittedUpTo(p, counts, n - 1, power);
      var last := if counts[n - 1] == 0 then [] else [BucketAt(p, n - 1, counts[n - 1], power)];
      TotalAppend(rest, last);
      assert last != [] ==> last[..0] == [];
    }
  }

  /** Emitted mass is the counts used, exactly when the point has the shape of its layout or counted nothing. */
  lemma EmittedMass(p: Point, counts: seq<nat>, power: Power)
    ensures Total(Emitted(p, counts, power)) == CountsTotal(counts) as real
      <==> HasShape(p, counts) || CountsTotal(counts) == 0
  {
    if HasShape(p, counts) { UpToMass(p, counts, |counts|, power); }
  }

  ghost predicate Ascending(bounds: seq<real>) {
    forall i, j :: 0 <= i < j < |bounds| ==> bounds[i] < bounds[j]
  }

  /** Bounds ascend, and what counts in an outer bucket is bounded by an extreme on that side, if one is given. */
  ghost predicate HasOrderedEdges(p: Point, counts: seq<nat>) {
    match p.layout
    case Explicit(bounds) =>
      && Ascending(bounds)
      && (|counts| == |bounds| + 1 && counts[0] > 0 && bounds != [] && p.min.Some? ==> p.min.value <= bounds[0])
      && (|counts| == |bounds| + 1 && counts[|bounds|] > 0 && p.max.Some? ==> ExplicitLow(p, |bounds|) <= p.max.value)
    case Exponential(_, threshold) => threshold >= 0.0
    case NoLayout => true
  }

  /** No emitted bucket is inverted or empty. */
  lemma {:induction false} EmittedIsWellFormed(p: Point, counts: seq<nat>, n: nat, power: Power)
    requires HasShape(p, counts) && n <= |counts| && HasOrderedEdges(p, counts) && IsPower(power)
    ensures WellFormed(EmittedUpTo(p, counts, n, power))
    ensures forall b :: b in EmittedUpTo(p, counts, n, power) ==> b.count >= 1.0
  {
    if n > 0 { EmittedIsWellFormed(p, counts, n - 1, power); }
  }

  // ---- The distribution function at a bound ----

  /** An explicit bound, among ascending ones. */
  ghost predicate IsBound(p: Point, counts: seq<nat>, j: nat) {
    p.layout.Explicit? && Ascending(p.layout.bounds) && j < |p.layout.bounds| && HasShape(p, counts)
  }

  /** The first bucket starts above the bound, so it is not read there although it is counted up to it. */
  function Missed(p: Point, counts: seq<nat>, j: nat): nat
    requires p.layout.Explicit? && j < |p.layout.bounds| && counts != []
  {
    if p.min.Some? && p.min.value > p.layout.bounds[j] then counts[0] else 0
  }

  /** The overflow bucket begins and ends on the last bound, so it is read there although it is counted beyond. */
  function Extra(p: Point, counts: seq<nat>, j: nat): nat
    requires p.layout.Explicit? && j < |p.layout.bounds| && |counts| == |p.layout.bounds| + 1
  {
    var n := |p.layout.bounds|;
    if j == n - 1 && ExplicitHigh(p, n) <= ExplicitLow(p, n) then counts[n] else 0
  }

  /** What the bucket at one position holds at or below a bound. */
  function ReadAt(p: Point, counts: seq<nat>, i: nat, j: nat): nat
    requires p.layout.Explicit? && j < |p.layout.bounds| && |counts| == |p.layout.bounds| + 1 && i < |counts|
  {
    if i == 0 then counts[0] - Missed(p, counts, j)
    else if i < |p.layout.bounds| then if i <= j then counts[i] else 0
    else Extra(p, counts, j)
  }

  function ReadUpTo(p: Point, counts: seq<nat>, n: nat, j: nat): nat
    requires p.layout.Explicit? && j < |p.layout.bounds| && |counts| == |p.layout.bounds| + 1 && n <= |counts|
  {
    if n == 0 then 0 else ReadUpTo(p, counts, n - 1, j) + ReadAt(p, counts, n - 1, j)
  }

  lemma BoundHasShape(p: Point, counts: seq<nat>, j: nat)
    requires IsBound(p, counts, j)
    ensures p.layout.Explicit? && j < |p.layout.bounds| && HasShape(p, counts) && |counts| == |p.layout.bounds| + 1
  {
  }

  lemma MassAtBound(p: Point, counts: seq<nat>, i: nat, j: nat, power: Power, f: Interpolation)
    requires IsBound(p, counts, j) && i < |counts| && counts[i] > 0
    ensures Mass(BucketAt(p, i, counts[i], power), p.layout.bounds[j], f) == ReadAt(p, counts, i, j) as real
  {
    var b, x := BucketAt(p, i, counts[i], power), p.layout.bounds[j];
    if i > j {
      assert b.low == p.layout.bounds[i - 1];
      if i - 1 == j && b.low < b.high {
        assert x == b.low;
        assert Quantile.Share(b, x, f) == 0.0;
      }
    }
  }

  lemma CdfOne(b: Bucket, x: real, f: Interpolation)
    ensures Cdf([b], x, f) == Mass(b, x, f) && Cdf([], x, f) == 0.0
  {
    hide Mass;
    assert [b][..0] == [];
  }

  lemma NothingAtBound(p: Point, counts: seq<nat>, x: real, power: Power, f: Interpolation)
    requires HasShape(p, counts)
    ensures Cdf(EmittedUpTo(p, counts, 0, power), x, f) == 0.0
  {
  }

  lemma EmittedAtBound(p: Point, counts: seq<nat>, n: nat, j: nat, power: Power, f: Interpolation)
    requires IsBound(p, counts, j) && HasShape(p, counts) && 0 < n <= |counts|
    ensures Cdf(EmittedUpTo(p, counts, n, power), p.layout.bounds[j], f)
      == Cdf(EmittedUpTo(p, counts, n - 1, power), p.layout.bounds[j], f) + ReadAt(p, counts, n - 1, j) as real
  {
    hide Mass, BucketAt, IsBound, Cdf;
    assert p.layout.Explicit? && j < |p.layout.bounds| by { BoundHasShape(p, counts, j); }
    var b, x := BucketAt(p, n - 1, counts[n - 1], power), p.layout.bounds[j];
    var rest := EmittedUpTo(p, counts, n - 1, power);
    if counts[n - 1] == 0 {
      assert EmittedUpTo(p, counts, n, power) == rest + [] == rest;
    } else {
      assert EmittedUpTo(p, counts, n, power) == rest + [b];
      CdfAppend(rest, [b], x, f);
      CdfOne(b, x, f);
      MassAtBound(p, counts, n - 1, j, power, f);
    }
  }

  lemma {:induction false} EmittedRead(p: Point, counts: seq<nat>, n: nat, j: nat, power: Power, f: Interpolation)
    requires IsBound(p, counts, j) && HasShape(p, counts) && n <= |counts|
    ensures Cdf(EmittedUpTo(p, counts, n, power), p.layout.bounds[j], f) == ReadUpTo(p, counts, n, j) as real
  {
    hide IsBound, EmittedUpTo, Cdf, ReadAt;
    assert p.layout.Explicit? && j < |p.layout.bounds| by { BoundHasShape(p, counts, j); }
    if n == 0 {
      NothingAtBound(p, counts, p.layout.bounds[j], power, f);
    } else {
      EmittedRead(p, counts, n - 1, j, power, f);
      EmittedAtBound(p, counts, n, j, power, f);
    }
  }

  lemma {:induction false} ReadIsCounted(p: Point, counts: seq<nat>, n: nat, j: nat)
    requires IsBound(p, counts, j) && 0 < n <= |p.layout.bounds|
    ensures ReadUpTo(p, counts, n, j) + Missed(p, counts, j) == CountsUpTo(counts, if n <= j + 1 then n else j + 1)
  {
    if n > 1 { ReadIsCounted(p, counts, n - 1, j); }
  }

  /**
   * At a bound, a point's buckets hold the count up to it, less a first bucket that starts above it and plus an
   * overflow bucket that ends on it: exactly the count up to the bound only when those two balance.
   */
  lemma UpToAtBound(p: Point, counts: seq<nat>, j: nat, power: Power, f: Interpolation)
    requires IsBound(p, counts, j) && HasShape(p, counts)
    ensures Cdf(Emitted(p, counts, power), p.layout.bounds[j], f) + Missed(p, counts, j) as real
      == (CountsUpTo(counts, j + 1) + Extra(p, counts, j)) as real
    ensures Cdf(Emitted(p, counts, power), p.layout.bounds[j], f) == CountsUpTo(counts, j + 1) as real
      <==> Missed(p, counts, j) == Extra(p, counts, j)
  {
    EmittedRead(p, counts, |counts|, j, power, f);
    ReadIsCounted(p, counts, |p.layout.bounds|, j);
    hide Cdf, EmittedUpTo, Missed, Extra, CountsUpTo;
  }

  /** Three observations above a last bound of 10 and no maximum: all of them are read at 10, where none was counted. */
  lemma OverflowIsReadAtBound(p: Point, power: Power, f: Interpolation)
    requires p.layout == Explicit([10.0]) && p.min.None? && p.max.None?
    ensures Cdf(Emitted(p, [0, 3], power), 10.0, f) == 3.0 && CountsUpTo([0, 3], 1) == 0
  {
    UpToAtBound(p, [0, 3], 0, power, f);
    hide Cdf, Emitted;
  }

  /** A bound at which neither outer bucket misleads, so that reading it gives the count. */
  ghost predicate IsReadable(p: Point, counts: seq<nat>, j: nat) {
    IsBound(p, counts, j) && Missed(p, counts, j) == 0 == Extra(p, counts, j)
  }

  lemma ReadableBound(p: Point, counts: seq<nat>, j: nat)
    requires IsReadable(p, counts, j)
    ensures IsBound(p, counts, j) && p.layout.Explicit? && j < |p.layout.bounds| && HasShape(p, counts)
    ensures Missed(p, counts, j) == Extra(p, counts, j)
  {
  }

  // ---- The accumulator ----

  datatype Gathered = Gathered(
    buckets: seq<Bucket>, totalCount: real, totalSum: real, sumComplete: bool, min: Option<real>, max: Option<real>)

  const NOTHING := Gathered([], 0.0, 0.0, true, None, None)

  function Lesser(a: Option<real>, b: Option<real>): (m: Option<real>)
    ensures m.None? <==> a.None? && b.None?
    ensures a.Some? && b.Some? ==> m.value <= a.value && m.value <= b.value
    ensures m.Some? ==> m == a || m == b
  {
    if b.None? then a else if a.None? || b.value < a.value then b else a
  }

  function Greater(a: Option<real>, b: Option<real>): (m: Option<real>)
    ensures m.None? <==> a.None? && b.None?
    ensures a.Some? && b.Some? ==> m.value >= a.value && m.value >= b.value
    ensures m.Some? ==> m == a || m == b
  {
    if b.None? then a else if a.None? || b.value > a.value then b else a
  }

  /** A group after one more point. */
  ghost function Added(g: Gathered, p: Point, previous: Option<Point>, power: Power): Gathered {
    var share := ShareOf(p, previous);
    if share.None? then g
    else
      var s := share.value;
      Gathered(
        g.buckets + Emitted(p, s.counts, power),
        g.totalCount + (if s.count.Some? then s.count.value else 0.0),
        g.totalSum + (if s.sum.Some? then s.sum.value else 0.0),
        g.sumComplete && s.sum.Some?,
        Lesser(g.min, p.min), Greater(g.max, p.max))
  }

  datatype Stats = Stats(
    count: int, mean: Option<real>, min: Option<real>, max: Option<real>,
    p50: Option<real>, p90: Option<real>, p95: Option<real>, p99: Option<real>)

  function QuantileOf(buckets: seq<Bucket>, q: real, f: Interpolation): Option<real> {
    Estimate(buckets, TargetMass(buckets, q), STEPS, f)
  }

  function StatsOf(g: Gathered, f: Interpolation): Option<Stats> {
    if g.totalCount <= 0.0 || g.buckets == [] then None
    else Some(Stats(
      g.totalCount.Floor, if g.sumComplete then Some(g.totalSum / g.totalCount) else None, g.min, g.max,
      QuantileOf(g.buckets, 0.50, f), QuantileOf(g.buckets, 0.90, f),
      QuantileOf(g.buckets, 0.95, f), QuantileOf(g.buckets, 0.99, f)))
  }

  class DistributionAccumulator {
    var buckets: seq<Bucket>
    var totalCount: real
    var totalSum: real
    var sumComplete: bool
    var minValue: Option<real>
    var maxValue: Option<real>

    ghost function Value(): Gathered reads this {
      Gathered(buckets, totalCount, totalSum, sumComplete, minValue, maxValue)
    }

    constructor ()
      ensures Value() == NOTHING
    {
      buckets, totalCount, totalSum, sumComplete, minValue, maxValue := [], 0.0, 0.0, true, None, None;
    }

    method Add(p: Point, previous: Option<Point>, pointCounts: seq<nat>, power: Power)
      requires pointCounts == PointCounts(p)
      modifies this
      ensures Value() == Added(old(Value()), p, previous, power)
    {
      hide ShareOf, Emitted, PointCounts, Lesser, Greater;
      var share := DeriveShare(p, previous, pointCounts);
      if share.None? { return; }
      var Share(counts, count, sum) := share.value;
      if count.Some? && count.value > 0.0 { totalCount := totalCount + count.value; }
      if sum.Some? { totalSum := totalSum + sum.value; } else { sumComplete := false; }
      minValue := Lesser(minValue, p.min);
      maxValue := Greater(maxValue, p.max);
      var more := BucketsForPoint(p, counts, power);
      buckets := buckets + more;
    }

    method ReadStats(f: Interpolation) returns (stats: Option<Stats>)
      ensures stats == StatsOf(Value(), f)
    {
      hide Estimate, TargetMass;
      if totalCount <= 0.0 || buckets == [] { return None; }
      var mean := None;
      if sumComplete { mean := Some(totalSum / totalCount); }
      var p50 := HistogramQuantile(buckets, 0.50, f);
      var p90 := HistogramQuantile(buckets, 0.90, f);
      var p95 := HistogramQuantile(buckets, 0.95, f);
      var p99 := HistogramQuantile(buckets, 0.99, f);
      stats := Some(Stats(totalCount.Floor, mean, minValue, maxValue, p50, p90, p95, p99));
    }
  }

  // ---- The window query ----

  function PrecedingRow(rows: seq<Point>): Option<Point> {
    if rows == [] then None else Some(rows[|rows| - 1])
  }

  /** What a group has gathered from the rows read so far; each row's baseline is the row just before it. */
  ghost function GatheredFrom(rows: seq<Point>, group: string, power: Power): Gathered {
    if rows == [] then NOTHING
    else
      var n := |rows| - 1;
      var g := GatheredFrom(rows[..n], group, power);
      if !rows[n].inWindow || rows[n].group != group then g else Added(g, rows[n], PrecedingRow(rows[..n]), power)
  }

  ghost predicate HasGroup(rows: seq<Point>, group: string) {
    exists k :: 0 <= k < |rows| && rows[k].inWindow && rows[k].group == group
  }

  /** Every group's accumulator is its own object. */
  ghost predicate Separate(groups: map<string, DistributionAccumulator>) {
    forall g, h :: g in groups && h in groups && g != h ==> groups[g] != groups[h]
  }

  ghost function Values(groups: map<string, DistributionAccumulator>): map<string, Gathered>
    reads groups.Values
  {
    map g | g in groups :: groups[g].Value()
  }

  ghost function Groups(rows: seq<Point>, power: Power): (all: map<string, Gathered>)
    ensures forall g :: g in all <==> HasGroup(rows, g)
    ensures forall g :: g in all ==> all[g] == GatheredFrom(rows, g, power)
  {
    if rows == [] then map[]
    else
      var n := |rows| - 1;
      var before := Groups(rows[..n], power);
      if !rows[n].inWindow then before
      else before[rows[n].group := Added(GatheredFrom(rows[..n], rows[n].group, power), rows[n],
                                         PrecedingRow(rows[..n]), power)]
  }

  method ReadRow(groups: map<string, DistributionAccumulator>, p: Point, previous: Option<Point>, power: Power)
    returns (after: map<string, DistributionAccumulator>)
    requires Separate(groups)
    modifies groups.Values
    ensures Separate(after) && fresh(after.Values - groups.Values)
    ensures Values(after) == old(Values(groups))[p.group :=
      Added(if p.group in groups then old(groups[p.group].Value()) else NOTHING, p, previous, power)]
  {
    hide Added;
    var counts := PointCounts(p);
    after := groups;
    if p.group !in groups {
      var accumulator := new DistributionAccumulator();
      after := groups[p.group := accumulator];
    }
    after[p.group].Add(p, previous, counts, power);
  }

  method GatherGroups(rows: seq<Point>, power: Power) returns (groups: map<string, DistributionAccumulator>)
    ensures Separate(groups) && fresh(groups.Values)
    ensures Values(groups) == Groups(rows, power)
  {
    hide Added, HasGroup;
    groups := map[];
    var previous: Option<Point> := None;
    for i := 0 to |rows|
      invariant Separate(groups) && fresh(groups.Values)
      invariant Values(groups) == Groups(rows[..i], power)
      invariant previous == PrecedingRow(rows[..i])
    {
      assert rows[..i + 1][..i] == rows[..i];
      var p := rows[i];
      if p.inWindow {
        AbsentGatheredNothing(rows[..i], p.group, power);
        groups := ReadRow(groups, p, previous, power);
      }
      previous := Some(p);
    }
    assert rows[..|rows|] == rows;
  }

  lemma {:induction false} AbsentGatheredNothing(rows: seq<Point>, group: string, power: Power)
    ensures !HasGroup(rows, group) ==> GatheredFrom(rows, group, power) == NOTHING
  {
    if rows != [] && !HasGroup(rows, group) {
      var n := |rows| - 1;
      assert !HasGroup(rows[..n], group);
      AbsentGatheredNothing(rows[..n], group, power);
    }
  }

  /** Statistics of every group that has any, from the rows ordered by series and time. */
  method ReadGroups(rows: seq<Point>, power: Power, f: Interpolation) returns (stats: map<string, Stats>)
    ensures forall g :: g in stats <==> HasGroup(rows, g) && StatsOf(GatheredFrom(rows, g, power), f).Some?
    ensures forall g :: g in stats ==> StatsOf(GatheredFrom(rows, g, power), f) == Some(stats[g])
  {
    hide StatsOf, HasGroup;
    var groups := GatherGroups(rows, power);
    ghost var all := Groups(rows, power);
    assert groups.Keys == Values(groups).Keys == all.Keys;
    stats := map[];
    var left := groups.Keys;
    while left != {}
      invariant left <= groups.Keys && Values(groups) == all
      invariant forall g :: g in stats <==> g in groups && g !in left && StatsOf(all[g], f).Some?
      invariant forall g :: g in stats ==> StatsOf(all[g], f) == Some(stats[g])
      decreases |left|
    {
      var g :| g in left;
      assert Values(groups)[g] == all[g];
      var read := groups[g].ReadStats(f);
      if read.Some? { stats := stats[g := read.value]; }
      left := left - {g};
    }
  }

  method ListGroups(groups: set<string>) returns (found: seq<string>)
    ensures forall g :: g in found <==> g in groups
    ensures forall i, j :: 0 <= i < j < |found| ==> found[i] != found[j]
  {
    found := [];
    var left := groups;
    while left != {}
      invariant left <= groups && forall g :: g in found <==> g in groups && g !in left
      invariant forall i, j :: 0 <= i < j < |found| ==> found[i] != found[j]
      decreases |left|
    {
      var g :| g in left;
      found, left := found + [g], left - {g};
    }
  }

  datatype GroupStats = GroupStats(group: string, stats: Stats)

  function ByGroup(): Precedence<string> { (a: string, b: string) => Less(a, b) }

  lemma ByGroupOrders(found: seq<string>)
    requires forall i, j :: 0 <= i < j < |found| ==> found[i] != found[j]
    ensures IsSortedBy(OrderBy(found, ByGroup()), ByGroup())
    ensures forall g :: g in OrderBy(found, ByGroup()) <==> g in found
  {
    forall a, b, c ensures !Less(a, a) && (Less(a, b) && Less(b, c) ==> Less(a, c)) {
      LessIsStrict(a, a);
      if Less(a, b) && Less(b, c) { LessIsTransitive(a, b, c); }
    }
    forall i, j | 0 <= i < j < |found| ensures Less(found[i], found[j]) || Less(found[j], found[i]) {
      LessIsStrict(found[i], found[j]);
    }
    OrderBySorts(found, ByGroup());
    var sorted := OrderBy(found, ByGroup());
    forall g ensures g in sorted <==> g in found {
      assert g in sorted <==> g in multiset(sorted);
    }
  }

  /** One row per group with statistics, ordered by group. */
  method MetricDistributionStats(rows: seq<Point>, power: Power, f: Interpolation) returns (result: seq<GroupStats>)
    ensures forall i, j :: 0 <= i < j < |result| ==> Less(result[i].group, result[j].group)
    ensures forall g :: (exists i :: 0 <= i < |result| && result[i].group == g) <==>
      HasGroup(rows, g) && StatsOf(GatheredFrom(rows, g, power), f).Some?
    ensures forall i :: 0 <= i < |result| ==>
      StatsOf(GatheredFrom(rows, result[i].group, power), f) == Some(result[i].stats)
    ensures forall i :: 0 <= i < |result| ==>
      Describe(result[i].stats, Contributions(rows, result[i].group), power, f)
  {
    hide StatsOf, HasGroup, GatheredFrom, OrderBy, Less, Describe, Contributions;
    var stats := ReadGroups(rows, power, f);
    var found := ListGroups(stats.Keys);
    var order := OrderBy(found, ByGroup());
    ByGroupOrders(found);
    result := [];
    for i := 0 to |order|
      invariant |result| == i && forall j :: 0 <= j < i ==> result[j].group == order[j]
      invariant forall j :: 0 <= j < i ==> order[j] in stats && result[j].stats == stats[order[j]]
    {
      assert order[i] in order;
      result := result + [GroupStats(order[i], stats[order[i]])];
    }
    forall i | 0 <= i < |result| ensures Describe(result[i].stats, Contributions(rows, result[i].group), power, f) {
      StatsDescribe(rows, result[i].group, power, f);
    }
    forall g ensures (exists i :: 0 <= i < |result| && result[i].group == g) <==> g in stats {
      if g in stats {
        assert g in order;
        var i :| 0 <= i < |order| && order[i] == g;
        assert result[i].group == g;
      }
    }
  }

  // ---- Telescoping ----

  /** One cumulative series going on without a reset: same layout, no bucket and no total goes down. */
  ghost predicate IsSteady(p: Point, previous: Point, group: string) {
    && p.inWindow && p.group == group && p.cumulative && IsBaseline(p, Some(previous))
    && Continues(p, previous)
    && p.count.Some? && previous.count.Some? && p.sum.Some? && previous.sum.Some?
  }

  /** `run[0]` is the baseline; the others are window rows continuing it. */
  ghost predicate IsSteadyRun(run: seq<Point>, group: string) {
    run != [] && forall k :: 0 < k < |run| ==> IsSteady(run[k], run[k - 1], group)
  }

  lemma {:induction false} DifferencesSum(current: seq<nat>, previous: seq<nat>, n: nat)
    requires Dominates(current, previous) && n <= |current|
    ensures CountsUpTo(Differences(current, previous), n) == CountsUpTo(current, n) - CountsUpTo(previous, n)
  {
    if n > 0 { DifferencesSum(current, previous, n - 1); }
  }

  /** One step of a steady series adds exactly its growth. */
  lemma SteadyStep(g: Gathered, p: Point, previous: Point, group: string, power: Power)
    requires IsSteady(p, previous, group)
    ensures var after := Added(g, p, Some(previous), power);
      && after.totalCount == g.totalCount + p.count.value as real - previous.count.value as real
      && after.totalSum == g.totalSum + p.sum.value - previous.sum.value
      && after.sumComplete == g.sumComplete
      && after.buckets == g.buckets + Emitted(p, Differences(PointCounts(p), PointCounts(previous)), power)
  {
    hide Emitted, Differences, Dominates, PointCounts;
  }

  /** A group after the later points of a run, each with the one before it as baseline. */
  ghost function AddedRun(g: Gathered, run: seq<Point>, power: Power): Gathered {
    if |run| <= 1 then g
    else
      var n := |run| - 1;
      Added(AddedRun(g, run[..n], power), run[n], Some(run[n - 1]), power)
  }

  lemma {:induction false} GatheredRun(before: seq<Point>, run: seq<Point>, group: string, power: Power)
    requires IsSteadyRun(run, group)
    ensures GatheredFrom(before + run, group, power)
      == AddedRun(GatheredFrom(before + [run[0]], group, power), run, power)
  {
    hide Added, Continues, IsBaseline;
    var n := |run| - 1;
    if n == 0 {
      assert run == [run[0]];
    } else {
      GatheredRun(before, run[..n], group, power);
      assert (before + run)[..|before| + n] == before + run[..n];
      assert IsSteady(run[n], run[n - 1], group);
    }
  }

  function CountOf(p: Point): real { if p.count.Some? then p.count.value as real else 0.0 }

  function SumOf(p: Point): real { if p.sum.Some? then p.sum.value else 0.0 }

  lemma {:induction false} TotalsTelescope(g: Gathered, run: seq<Point>, group: string, power: Power)
    requires IsSteadyRun(run, group)
    ensures var end := AddedRun(g, run, power);
      && end.totalCount + CountOf(run[0]) == g.totalCount + CountOf(run[|run| - 1])
      && end.totalSum + SumOf(run[0]) == g.totalSum + SumOf(run[|run| - 1])
      && end.sumComplete == g.sumComplete
  {
    hide Added, Continues, IsBaseline;
    var n := |run| - 1;
    if n > 0 {
      TotalsTelescope(g, run[..n], group, power);
      assert IsSteady(run[n], run[n - 1], group);
      SteadyStep(AddedRun(g, run[..n], power), run[n], run[n - 1], group, power);
    }
  }

  ghost predicate AllShaped(run: seq<Point>) {
    forall k :: 0 <= k < |run| ==> HasShape(run[k], PointCounts(run[k]))
  }

  lemma MassStep(g: Gathered, p: Point, previous: Point, group: string, power: Power)
    requires IsSteady(p, previous, group) && HasShape(p, PointCounts(p))
    ensures Total(Added(g, p, Some(previous), power).buckets) + CountsTotal(PointCounts(previous)) as real
      == Total(g.buckets) + CountsTotal(PointCounts(p)) as real
  {
    SteadyStep(g, p, previous, group, power);
    hide Added, IsBaseline, IsReset, EmittedUpTo, Differences, PointCounts, Total;
    var used := Differences(PointCounts(p), PointCounts(previous));
    TotalAppend(g.buckets, Emitted(p, used, power));
    UpToMass(p, used, |used|, power);
    DifferencesSum(PointCounts(p), PointCounts(previous), |used|);
  }

  lemma {:induction false} MassTelescopes(g: Gathered, run: seq<Point>, group: string, power: Power)
    requires IsSteadyRun(run, group) && AllShaped(run)
    ensures Total(AddedRun(g, run, power).buckets) + CountsTotal(PointCounts(run[0])) as real
      == Total(g.buckets) + CountsTotal(PointCounts(run[|run| - 1])) as real
  {
    hide Added, Continues, IsBaseline, HasShape, PointCounts, Total, CountsTotal;
    var n := |run| - 1;
    if n > 0 {
      MassTelescopes(g, run[..n], group, power);
      assert IsSteady(run[n], run[n - 1], group);
      MassStep(AddedRun(g, run[..n], power), run[n], run[n - 1], group, power);
    }
  }

  /** A point of a known shape, with bound `j` where `x` is. */
  ghost predicate HasBound(p: Point, j: nat, x: real) {
    IsReadable(p, PointCounts(p), j) && p.layout.bounds[j] == x
  }

  /** The cumulative count of a point up to and including its bound `j`. */
  function CountAtBound(p: Point, j: nat): real
    requires j < |PointCounts(p)|
  {
    CountsUpTo(PointCounts(p), j + 1) as real
  }

  /** Growth is read wherever the counts themselves are. */
  lemma GrowthIsReadable(p: Point, previous: Point, j: nat)
    requires IsReadable(p, PointCounts(p), j) && Dominates(PointCounts(p), PointCounts(previous))
    ensures IsReadable(p, Differences(PointCounts(p), PointCounts(previous)), j)
  {
    var counts, used := PointCounts(p), Differences(PointCounts(p), PointCounts(previous));
    assert forall i :: 0 <= i < |counts| ==> used[i] <= counts[i];
  }

  lemma DistributionStep(g: Gathered, p: Point, previous: Point, group: string, j: nat, x: real, power: Power,
                         f: Interpolation)
    requires IsSteady(p, previous, group) && HasBound(p, j, x) && HasBound(previous, j, x)
    ensures Cdf(Added(g, p, Some(previous), power).buckets, x, f) + CountAtBound(previous, j)
      == Cdf(g.buckets, x, f) + CountAtBound(p, j)
  {
    SteadyStep(g, p, previous, group, power);
    GrowthIsReadable(p, previous, j);
    hide Added, IsBaseline, IsReset, EmittedUpTo, Differences, PointCounts, Cdf, IsReadable;
    var used := Differences(PointCounts(p), PointCounts(previous));
    CdfAppend(g.buckets, Emitted(p, used, power), x, f);
    ReadableBound(p, used, j);
    UpToAtBound(p, used, j, power, f);
    DifferencesSum(PointCounts(p), PointCounts(previous), j + 1);
  }

  lemma BoundIsCounted(p: Point, j: nat, x: real)
    requires HasBound(p, j, x)
    ensures j < |PointCounts(p)|
  {
  }

  lemma {:induction false} DistributionTelescopes(
    g: Gathered, run: seq<Point>, group: string, j: nat, x: real, power: Power, f: Interpolation)
    requires IsSteadyRun(run, group) && forall k :: 0 <= k < |run| ==> HasBound(run[k], j, x)
    ensures HasBound(run[0], j, x) && HasBound(run[|run| - 1], j, x)
    ensures Cdf(AddedRun(g, run, power).buckets, x, f) + CountAtBound(run[0], j)
      == Cdf(g.buckets, x, f) + CountAtBound(run[|run| - 1], j)
  {
    hide Added, IsSteady, HasBound, Cdf, PointCounts, CountsUpTo;
    var n := |run| - 1;
    assert HasBound(run[0], j, x) && HasBound(run[n], j, x);
    BoundIsCounted(run[0], j, x);
    BoundIsCounted(run[n], j, x);
    if n > 0 {
      DistributionTelescopes(g, run[..n], group, j, x, power, f);
      assert IsSteady(run[n], run[n - 1], group) && HasBound(run[n - 1], j, x);
      BoundIsCounted(run[n - 1], j, x);
      DistributionStep(AddedRun(g, run[..n], power), run[n], run[n - 1], group, j, x, power, f);
    }
  }

  /**
   * Wherever a steady run stands in the rows of a window, its group gains last minus baseline in count, in sum and in
   * bucket mass. The points in between leave no trace.
   */
  lemma RunTelescopes(before: seq<Point>, run: seq<Point>, group: string, power: Power)
    requires IsSteadyRun(run, group) && AllShaped(run)
    ensures var start, end := GatheredFrom(before + [run[0]], group, power), GatheredFrom(before + run, group, power);
      var first, last := run[0], run[|run| - 1];
      && end.totalCount - start.totalCount == CountOf(last) - CountOf(first)
      && end.totalSum - start.totalSum == SumOf(last) - SumOf(first)
      && Total(end.buckets) - Total(start.buckets)
         == CountsTotal(PointCounts(last)) as real - CountsTotal(PointCounts(first)) as real
  {
    var start := GatheredFrom(before + [run[0]], group, power);
    hide GatheredFrom, AddedRun, IsSteadyRun, AllShaped, Total, CountsTotal, PointCounts;
    GatheredRun(before, run, group, power);
    TotalsTelescope(start, run, group, power);
    MassTelescopes(start, run, group, power);
  }

  /** And with explicit bounds the group's distribution function gains, at every bound, the growth
      of the count up to it. */
  lemma RunDistributionTelescopes(
    before: seq<Point>, run: seq<Point>, group: string, j: nat, x: real, power: Power, f: Interpolation)
    requires IsSteadyRun(run, group) && forall k :: 0 <= k < |run| ==> HasBound(run[k], j, x)
    ensures HasBound(run[0], j, x) && HasBound(run[|run| - 1], j, x)
    ensures var start, end := GatheredFrom(before + [run[0]], group, power), GatheredFrom(before + run, group, power);
      Cdf(end.buckets, x, f) - Cdf(start.buckets, x, f) == CountAtBound(run[|run| - 1], j) - CountAtBound(run[0], j)
  {
    var start := GatheredFrom(before + [run[0]], group, power);
    hide GatheredFrom, AddedRun, IsSteadyRun, Cdf, CountAtBound;
    GatheredRun(before, run, group, power);
    DistributionTelescopes(start, run, group, j, x, power, f);
  }

  // ---- Telescoping bucket by bucket ----

  datatype Edges = Edges(low: real, high: real, logarithmic: bool)

  function EdgesOf(b: Bucket): Edges { Edges(b.low, b.high, b.logarithmic) }

  /** The edges of a position, whatever it counts. */
  function EdgesAt(p: Point, i: nat, power: Power): Edges
    requires p.layout.Explicit? ==> i <= |p.layout.bounds|
    requires !p.layout.NoLayout? && (p.layout.Exponential? ==> p.layout.scale.Some?)
  {
    EdgesOf(BucketAt(p, i, 0, power))
  }

  /** What a bucket list holds between two edges. */
  function MassOn(buckets: seq<Bucket>, e: Edges): real {
    if buckets == [] then 0.0
    else
      var b := buckets[|buckets| - 1];
      MassOn(buckets[..|buckets| - 1], e) + if EdgesOf(b) == e then b.count else 0.0
  }

  lemma {:induction false} MassOnAppend(a: seq<Bucket>, b: seq<Bucket>, e: Edges)
    ensures MassOn(a + b, e) == MassOn(a, e) + MassOn(b, e)
  {
    if b == [] {
      assert a + b == a;
    } else {
      MassOnAppend(a, b[..|b| - 1], e);
      assert (a + b)[..|a + b| - 1] == a + b[..|b| - 1];
    }
  }

  /** The counts of the positions between two edges, among the first `n`. */
  function CountsOn(p: Point, counts: seq<nat>, n: nat, e: Edges, power: Power): nat
    requires HasShape(p, counts) && n <= |counts|
  {
    if n == 0 then 0
    else CountsOn(p, counts, n - 1, e, power) + if EdgesAt(p, n - 1, power) == e then counts[n - 1] else 0
  }

  lemma {:induction false} EmittedOn(p: Point, counts: seq<nat>, n: nat, e: Edges, power: Power)
    requires HasShape(p, counts) && n <= |counts|
    ensures MassOn(EmittedUpTo(p, counts, n, power), e) == CountsOn(p, counts, n, e, power) as real
  {
    hide BucketAt, MassOn;
    if n == 0 {
      NoMassOn(e);
    } else {
      EmittedOn(p, counts, n - 1, e, power);
      var b := BucketAt(p, n - 1, counts[n - 1], power);
      BucketHasEdges(p, n - 1, counts[n - 1], power);
      MassOfOne(b, e);
      NoMassOn(e);
      MassOnAppend(EmittedUpTo(p, counts, n - 1, power), if counts[n - 1] == 0 then [] else [b], e);
    }
  }

  lemma NoMassOn(e: Edges)
    ensures MassOn([], e) == 0.0
  {
  }

  lemma MassOfOne(b: Bucket, e: Edges)
    ensures MassOn([b], e) == if EdgesOf(b) == e then b.count else 0.0
  {
    assert [b][..0] == [];
  }

  lemma BucketHasEdges(p: Point, i: nat, count: nat, power: Power)
    requires p.layout.Explicit? ==> i <= |p.layout.bounds|
    requires !p.layout.NoLayout? && (p.layout.Exponential? ==> p.layout.scale.Some?)
    ensures EdgesOf(BucketAt(p, i, count, power)) == EdgesAt(p, i, power)
    ensures BucketAt(p, i, count, power).count == count as real
  {
  }

  /** Two points of one shape have the same positions between two edges. */
  ghost predicate SharesEdges(p: Point, q: Point, e: Edges, power: Power) {
    && HasShape(p, PointCounts(p)) && HasShape(q, PointCounts(q)) && |PointCounts(p)| == |PointCounts(q)|
    && forall i :: 0 <= i < |PointCounts(p)| ==> (EdgesAt(p, i, power) == e <==> EdgesAt(q, i, power) == e)
  }

  lemma {:induction false} GrowthOn(p: Point, q: Point, n: nat, e: Edges, power: Power)
    requires SharesEdges(p, q, e, power) && Dominates(PointCounts(p), PointCounts(q)) && n <= |PointCounts(p)|
    ensures var used := Differences(PointCounts(p), PointCounts(q));
      && HasShape(p, used)
      && CountsOn(p, used, n, e, power) + CountsOn(q, PointCounts(q), n, e, power)
         == CountsOn(p, PointCounts(p), n, e, power)
  {
    hide EdgesAt;
    if n > 0 { GrowthOn(p, q, n - 1, e, power); }
  }

  /** All the counts of a point between two edges. */
  function PointOn(p: Point, e: Edges, power: Power): nat
    requires HasShape(p, PointCounts(p))
  {
    CountsOn(p, PointCounts(p), |PointCounts(p)|, e, power)
  }

  lemma EdgesStep(g: Gathered, p: Point, previous: Point, group: string, e: Edges, power: Power)
    requires IsSteady(p, previous, group) && SharesEdges(p, previous, e, power)
    ensures MassOn(Added(g, p, Some(previous), power).buckets, e) + PointOn(previous, e, power) as real
      == MassOn(g.buckets, e) + PointOn(p, e, power) as real
  {
    SteadyStep(g, p, previous, group, power);
    hide Added, IsBaseline, IsReset, EmittedUpTo, Differences, PointCounts, MassOn, CountsOn;
    var used := Differences(PointCounts(p), PointCounts(previous));
    GrowthOn(p, previous, |used|, e, power);
    MassOnAppend(g.buckets, Emitted(p, used, power), e);
    EmittedOn(p, used, |used|, e, power);
  }

  ghost predicate RunSharesEdges(run: seq<Point>, e: Edges, power: Power) {
    && (forall k :: 0 <= k < |run| ==> HasShape(run[k], PointCounts(run[k])))
    && forall k :: 0 < k < |run| ==> SharesEdges(run[k], run[k - 1], e, power)
  }

  lemma {:induction false} AddedRunOn(g: Gathered, run: seq<Point>, group: string, e: Edges, power: Power)
    requires IsSteadyRun(run, group) && RunSharesEdges(run, e, power)
    ensures MassOn(AddedRun(g, run, power).buckets, e) + PointOn(run[0], e, power) as real
      == MassOn(g.buckets, e) + PointOn(run[|run| - 1], e, power) as real
  {
    hide Added, IsSteady, SharesEdges, MassOn, PointOn, HasShape, PointCounts;
    var n := |run| - 1;
    if n > 0 {
      AddedRunOn(g, run[..n], group, e, power);
      assert IsSteady(run[n], run[n - 1], group) && SharesEdges(run[n], run[n - 1], e, power);
      EdgesStep(AddedRun(g, run[..n], power), run[n], run[n - 1], group, e, power);
    }
  }

  /** Between any two edges a run shares, the group's own buckets gain the last point's count minus the baseline's. */
  lemma BucketsTelescope(before: seq<Point>, run: seq<Point>, group: string, e: Edges, power: Power)
    requires IsSteadyRun(run, group) && RunSharesEdges(run, e, power)
    ensures var start, end := GatheredFrom(before + [run[0]], group, power), GatheredFrom(before + run, group, power);
      MassOn(end.buckets, e) - MassOn(start.buckets, e)
      == PointOn(run[|run| - 1], e, power) as real - PointOn(run[0], e, power) as real
  {
    hide GatheredFrom, AddedRun, MassOn, PointOn;
    GatheredRun(before, run, group, power);
    AddedRunOn(GatheredFrom(before + [run[0]], group, power), run, group, e, power);
  }

  /** Exponential points of one layout and equal offsets share all their edges. */
  lemma ExponentialSharesEdges(p: Point, q: Point, e: Edges, power: Power)
    requires p.layout.Exponential? && p.layout == q.layout && HasShape(p, PointCounts(p)) && HasShape(q, PointCounts(q))
    requires p.positiveOffset == q.positiveOffset && p.negativeOffset == q.negativeOffset
    requires |p.negative| == |q.negative| && |p.positive| == |q.positive|
    ensures SharesEdges(p, q, e, power)
  {
  }

  /** Explicit points of one layout share every pair of neighbouring bounds, and count between them
      at that position only. */
  lemma ExplicitSharesEdges(p: Point, q: Point, i: nat, power: Power)
    requires p.layout.Explicit? && p.layout == q.layout && Ascending(p.layout.bounds) && 0 < i < |p.layout.bounds|
    requires HasShape(p, PointCounts(p)) && HasShape(q, PointCounts(q))
    ensures var e := Edges(p.layout.bounds[i - 1], p.layout.bounds[i], false);
      SharesEdges(p, q, e, power) && PointOn(p, e, power) == PointCounts(p)[i]
  {
    var e := Edges(p.layout.bounds[i - 1], p.layout.bounds[i], false);
    OnlyAt(p, PointCounts(p), |PointCounts(p)|, i, power);
    forall k | 0 <= k < |PointCounts(p)| ensures EdgesAt(p, k, power) == e <==> k == i {
      NeighboursAt(p, k, i, power);
    }
    forall k | 0 <= k < |PointCounts(q)| ensures EdgesAt(q, k, power) == e <==> k == i {
      NeighboursAt(q, k, i, power);
    }
  }

  lemma NeighboursAt(p: Point, k: nat, i: nat, power: Power)
    requires p.layout.Explicit? && Ascending(p.layout.bounds) && 0 < i < |p.layout.bounds| && k <= |p.layout.bounds|
    ensures EdgesAt(p, k, power) == Edges(p.layout.bounds[i - 1], p.layout.bounds[i], false) <==> k == i
  {
  }

  lemma {:induction false} OnlyAt(p: Point, counts: seq<nat>, n: nat, i: nat, power: Power)
    requires p.layout.Explicit? && Ascending(p.layout.bounds) && 0 < i < |p.layout.bounds|
    requires HasShape(p, counts) && n <= |counts|
    ensures CountsOn(p, counts, n, Edges(p.layout.bounds[i - 1], p.layout.bounds[i], false), power)
      == if i < n then counts[i] else 0
  {
    if n > 0 {
      OnlyAt(p, counts, n - 1, i, power);
      NeighboursAt(p, n - 1, i, power);
      hide EdgesAt;
    }
  }

  /** A point adds its raw counts exactly when there is nothing, or nothing usable, to subtract. */
  lemma RawIff(p: Point, previous: Point)
    requires p.cumulative && IsBaseline(p, Some(previous))
    ensures ShareOf(p, Some(previous)).Some?
    ensures var s := ShareOf(p, Some(previous)).value;
      s.counts == PointCounts(p) <==> !Continues(p, previous) || CountsTotal(PointCounts(previous)) == 0
  {
    var counts, prior := PointCounts(p), PointCounts(previous);
    hide PointCounts;
    if Continues(p, previous) {
      var used := Differences(counts, prior);
      if used == counts {
        assert forall i :: 0 <= i < |counts| ==> used[i] + prior[i] == counts[i];
        AllZeroIffNothing(prior, |prior|);
      } else {
        AllZeroIffNothing(prior, |prior|);
        var i :| 0 <= i < |counts| && used[i] != counts[i];
        assert used[i] + prior[i] == counts[i];
      }
    }
  }

  lemma {:induction false} AllZeroIffNothing(counts: seq<nat>, n: nat)
    requires n <= |counts|
    ensures CountsUpTo(counts, n) == 0 <==> forall i :: 0 <= i < n ==> counts[i] == 0
  {
    if n > 0 { AllZeroIffNothing(counts, n - 1); }
  }

  // ---- Statistics of what was gathered ----

  ghost predicate AllCounted(buckets: seq<Bucket>) {
    forall i :: 0 <= i < |buckets| ==> buckets[i].count >= 1.0
  }

  /** A share counts nothing its point does not, so its edges are ordered where the point's are. */
  lemma ShareHasOrderedEdges(p: Point, previous: Option<Point>)
    requires HasOrderedEdges(p, PointCounts(p))
    ensures ShareOf(p, previous).Some? ==> HasOrderedEdges(p, ShareOf(p, previous).value.counts)
  {
    hide PointCounts;
    var share := ShareOf(p, previous);
    if share.Some? {
      assert |share.value.counts| == |PointCounts(p)|;
      assert forall i :: 0 <= i < |PointCounts(p)| ==> share.value.counts[i] <= PointCounts(p)[i];
    }
  }

  lemma {:induction false} GatheredIsCounted(rows: seq<Point>, group: string, power: Power)
    ensures AllCounted(GatheredFrom(rows, group, power).buckets)
  {
    hide ShareOf;
    if rows != [] {
      var n := |rows| - 1;
      GatheredIsCounted(rows[..n], group, power);
      var share := ShareOf(rows[n], PrecedingRow(rows[..n]));
      if share.Some? && HasShape(rows[n], share.value.counts) {
        EmittedIsCounted(rows[n], share.value.counts, |share.value.counts|, power);
      }
    }
  }

  lemma {:induction false} EmittedIsCounted(p: Point, counts: seq<nat>, n: nat, power: Power)
    requires HasShape(p, counts) && n <= |counts|
    ensures AllCounted(EmittedUpTo(p, counts, n, power))
  {
    if n > 0 { EmittedIsCounted(p, counts, n - 1, power); }
  }

  lemma {:induction false} GatheredIsWellFormed(rows: seq<Point>, group: string, power: Power)
    requires IsPower(power) && forall k :: 0 <= k < |rows| ==> HasOrderedEdges(rows[k], PointCounts(rows[k]))
    ensures WellFormed(GatheredFrom(rows, group, power).buckets)
  {
    hide ShareOf, HasOrderedEdges, IsPower, PointCounts;
    if rows != [] {
      var n := |rows| - 1;
      GatheredIsWellFormed(rows[..n], group, power);
      var share := ShareOf(rows[n], PrecedingRow(rows[..n]));
      ShareHasOrderedEdges(rows[n], PrecedingRow(rows[..n]));
      if rows[n].inWindow && rows[n].group == group && share.Some? && HasShape(rows[n], share.value.counts) {
        EmittedIsWellFormed(rows[n], share.value.counts, |share.value.counts|, power);
      }
    }
  }

  lemma {:induction false} CountedTotal(buckets: seq<Bucket>)
    requires AllCounted(buckets)
    ensures Total(buckets) >= |buckets| as real
  {
    if buckets != [] { CountedTotal(buckets[..|buckets| - 1]); }
  }

  /** Whenever a group has statistics, all four percentiles exist. */
  lemma PercentilesExist(rows: seq<Point>, group: string, power: Power, f: Interpolation)
    requires StatsOf(GatheredFrom(rows, group, power), f).Some?
    ensures var s := StatsOf(GatheredFrom(rows, group, power), f).value;
      s.p50.Some? && s.p90.Some? && s.p95.Some? && s.p99.Some?
  {
    GatheredIsCounted(rows, group, power);
    CountedTotal(GatheredFrom(rows, group, power).buckets);
    hide GatheredFrom, Total, TargetMass, Bisect;
  }

  ghost predicate AreAscending(s: Stats) {
    && s.p50.Some? && s.p90.Some? && s.p95.Some? && s.p99.Some?
    && s.p50.value <= s.p90.value <= s.p95.value <= s.p99.value
  }

  ghost predicate AreDescending(s: Stats) {
    && s.p50.Some? && s.p90.Some? && s.p95.Some? && s.p99.Some?
    && s.p50.value >= s.p90.value >= s.p95.value >= s.p99.value
  }

  /**
   * They ascend when the lowest edge is not above the highest, and descend otherwise; the latter takes a group of
   * nothing but inverted outer buckets.
   */
  lemma PercentilesFollowEdges(rows: seq<Point>, group: string, power: Power, f: Interpolation)
    requires StatsOf(GatheredFrom(rows, group, power), f).Some?
    ensures var g := GatheredFrom(rows, group, power);
      && g.buckets != []
      && (LowEdge(g.buckets) <= HighEdge(g.buckets) ==> AreAscending(StatsOf(g, f).value))
      && (LowEdge(g.buckets) >= HighEdge(g.buckets) ==> AreDescending(StatsOf(g, f).value))
  {
    var g := GatheredFrom(rows, group, power);
    GatheredIsCounted(rows, group, power);
    CountedTotal(g.buckets);
    hide GatheredFrom, Total, Estimate, TargetMass, LowEdge, HighEdge;
    QuantilesOrdered(g.buckets, 0.50, 0.90, f);
    QuantilesOrdered(g.buckets, 0.90, 0.95, f);
    QuantilesOrdered(g.buckets, 0.95, 0.99, f);
  }

  /** One bucket that is not inverted puts the outer edges in order. */
  lemma OneBucketOrdersEdges(buckets: seq<Bucket>, i: nat)
    requires i < |buckets| && buckets[i].low <= buckets[i].high
    ensures LowEdge(buckets) <= HighEdge(buckets)
  {
    EdgesBound(buckets);
    hide LowEdge, HighEdge;
  }

  /** With outer buckets that fit their extremes, P50 ≤ P90 ≤ P95 ≤ P99 in every group with statistics. */
  lemma PercentilesOrdered(rows: seq<Point>, group: string, power: Power, f: Interpolation)
    requires IsPower(power) && forall k :: 0 <= k < |rows| ==> HasOrderedEdges(rows[k], PointCounts(rows[k]))
    requires StatsOf(GatheredFrom(rows, group, power), f).Some?
    ensures AreAscending(StatsOf(GatheredFrom(rows, group, power), f).value)
  {
    PercentilesFollowEdges(rows, group, power, f);
    GatheredIsWellFormed(rows, group, power);
    var g := GatheredFrom(rows, group, power);
    hide GatheredFrom, StatsOf, AreAscending;
    OneBucketOrdersEdges(g.buckets, 0);
  }

  // ---- What the statistics of a group say ----

  /** One point of a group with what it adds. */
  datatype Contribution = Contribution(point: Point, share: Share)

  /** The points that add to a group, in the order they are read. */
  ghost function Contributions(rows: seq<Point>, group: string): seq<Contribution> {
    if rows == [] then []
    else
      var n := |rows| - 1;
      var share := ShareOf(rows[n], if n == 0 then None else Some(rows[n - 1]));
      Contributions(rows[..n], group) +
      if rows[n].inWindow && rows[n].group == group && share.Some? then [Contribution(rows[n], share.value)] else []
  }

  function BucketsOf(cs: seq<Contribution>, power: Power): seq<Bucket> {
    if cs == [] then []
    else BucketsOf(cs[..|cs| - 1], power) + Emitted(cs[|cs| - 1].point, cs[|cs| - 1].share.counts, power)
  }

  function SumOfCounts(cs: seq<Contribution>): real {
    if cs == [] then 0.0
    else
      var count := cs[|cs| - 1].share.count;
      SumOfCounts(cs[..|cs| - 1]) + if count.Some? then count.value else 0.0
  }

  function SumOfSums(cs: seq<Contribution>): real {
    if cs == [] then 0.0
    else
      var sum := cs[|cs| - 1].share.sum;
      SumOfSums(cs[..|cs| - 1]) + if sum.Some? then sum.value else 0.0
  }

  /** The least minimum recorded by any contributing point. */
  ghost predicate IsLeastMin(m: Option<real>, cs: seq<Contribution>) {
    && (m.None? ==> forall k :: 0 <= k < |cs| ==> cs[k].point.min.None?)
    && (m.Some? ==> exists k :: 0 <= k < |cs| && cs[k].point.min == m)
    && (m.Some? ==> forall k :: 0 <= k < |cs| && cs[k].point.min.Some? ==> m.value <= cs[k].point.min.value)
  }

  ghost predicate IsGreatestMax(m: Option<real>, cs: seq<Contribution>) {
    && (m.None? ==> forall k :: 0 <= k < |cs| ==> cs[k].point.max.None?)
    && (m.Some? ==> exists k :: 0 <= k < |cs| && cs[k].point.max == m)
    && (m.Some? ==> forall k :: 0 <= k < |cs| && cs[k].point.max.Some? ==> m.value >= cs[k].point.max.value)
  }

  ghost predicate AllSummed(cs: seq<Contribution>) { forall k :: 0 <= k < |cs| ==> cs[k].share.sum.Some? }

  /** The accumulator has gathered exactly the contributions. */
  ghost predicate Gathers(g: Gathered, cs: seq<Contribution>, power: Power) {
    && g.buckets == BucketsOf(cs, power) && g.totalCount == SumOfCounts(cs) && g.totalSum == SumOfSums(cs)
    && (g.sumComplete <==> AllSummed(cs)) && IsLeastMin(g.min, cs) && IsGreatestMax(g.max, cs)
  }

  lemma MinStep(m: Option<real>, cs: seq<Contribution>, c: Contribution)
    requires IsLeastMin(m, cs)
    ensures IsLeastMin(Lesser(m, c.point.min), cs + [c])
  {
    var all := cs + [c];
    assert all[|cs|] == c && forall k :: 0 <= k < |cs| ==> all[k] == cs[k];
  }

  lemma MaxStep(m: Option<real>, cs: seq<Contribution>, c: Contribution)
    requires IsGreatestMax(m, cs)
    ensures IsGreatestMax(Greater(m, c.point.max), cs + [c])
  {
    var all := cs + [c];
    assert all[|cs|] == c && forall k :: 0 <= k < |cs| ==> all[k] == cs[k];
  }

  lemma GathersStep(g: Gathered, cs: seq<Contribution>, p: Point, previous: Option<Point>, power: Power)
    requires Gathers(g, cs, power) && ShareOf(p, previous).Some?
    ensures Gathers(Added(g, p, previous, power), cs + [Contribution(p, ShareOf(p, previous).value)], power)
  {
    hide ShareOf, Emitted, Lesser, Greater, IsLeastMin, IsGreatestMax;
    var c := Contribution(p, ShareOf(p, previous).value);
    assert (cs + [c])[..|cs|] == cs && (cs + [c])[|cs|] == c;
    MinStep(g.min, cs, c);
    MaxStep(g.max, cs, c);
  }

  lemma {:induction false} GatheredIsContributed(rows: seq<Point>, group: string, power: Power)
    ensures Gathers(GatheredFrom(rows, group, power), Contributions(rows, group), power)
  {
    hide ShareOf, Added, Gathers;
    if rows == [] {
      NothingGathered(power);
    } else {
      var n := |rows| - 1;
      GatheredIsContributed(rows[..n], group, power);
      var previous := if n == 0 then None else Some(rows[n - 1]);
      assert PrecedingRow(rows[..n]) == previous;
      var g, cs := GatheredFrom(rows[..n], group, power), Contributions(rows[..n], group);
      if ShareOf(rows[n], previous).Some? {
        GathersStep(g, cs, rows[n], previous, power);
      } else {
        AddsNothing(g, rows[n], previous, power);
      }
      assert cs + [] == cs;
    }
  }

  lemma NothingGathered(power: Power)
    ensures Gathers(NOTHING, [], power)
  {
  }

  lemma AddsNothing(g: Gathered, p: Point, previous: Option<Point>, power: Power)
    requires ShareOf(p, previous).None?
    ensures Added(g, p, previous, power) == g
  {
  }

  /** 2^81. */
  const FINENESS: real := 2417851639229258349412352.0

  /** The least point at which a share of all mass is reached. */
  ghost predicate IsSharePoint(buckets: seq<Bucket>, share: real, x: real, f: Interpolation) {
    Cdf(buckets, x, f) >= share * Total(buckets) && forall y :: y < x ==> Cdf(buckets, y, f) < share * Total(buckets)
  }

  /** At most a 2^81-th of the value range from the least point at which `share` of all mass is reached. */
  ghost predicate IsPercentile(v: Option<real>, buckets: seq<Bucket>, share: real, f: Interpolation)
    requires buckets != []
  {
    && v.Some?
    && forall x :: IsSharePoint(buckets, share, x, f) ==>
         -(HighEdge(buckets) - LowEdge(buckets)) <= (v.value - x) * FINENESS <= HighEdge(buckets) - LowEdge(buckets)
  }

  /** What the statistics of a group say about the points that contribute to it. */
  ghost predicate Describe(s: Stats, cs: seq<Contribution>, power: Power, f: Interpolation) {
    && SumOfCounts(cs) > 0.0 && s.count == SumOfCounts(cs).Floor
    && (s.mean.Some? <==> AllSummed(cs)) && (s.mean.Some? ==> s.mean.value * SumOfCounts(cs) == SumOfSums(cs))
    && IsLeastMin(s.min, cs) && IsGreatestMax(s.max, cs)
  }

  ghost predicate DescribePercentiles(s: Stats, buckets: seq<Bucket>, f: Interpolation) {
    && buckets != []
    && IsPercentile(s.p50, buckets, 0.50, f) && IsPercentile(s.p90, buckets, 0.90, f)
    && IsPercentile(s.p95, buckets, 0.95, f) && IsPercentile(s.p99, buckets, 0.99, f)
  }

  lemma MeanTimesCount(mean: real, sum: real, count: real)
    requires count > 0.0 && mean == sum / count
    ensures mean * count == sum
  {
  }

  lemma StatsFields(g: Gathered, f: Interpolation)
    ensures var s := StatsOf(g, f);
      && (s.Some? <==> g.totalCount > 0.0 && g.buckets != [])
      && (s.Some? ==> s.value.count == g.totalCount.Floor && s.value.min == g.min && s.value.max == g.max)
      && (s.Some? ==> (s.value.mean.Some? <==> g.sumComplete))
      && (s.Some? && g.sumComplete ==> s.value.mean.value * g.totalCount == g.totalSum)
  {
    hide QuantileOf;
    if g.totalCount > 0.0 { MeanTimesCount(g.totalSum / g.totalCount, g.totalSum, g.totalCount); }
  }

  /** Count, mean and extremes are those of the contributing points, whatever they are. */
  lemma StatsDescribe(rows: seq<Point>, group: string, power: Power, f: Interpolation)
    ensures var s, cs := StatsOf(GatheredFrom(rows, group, power), f), Contributions(rows, group);
      && (s.Some? <==> SumOfCounts(cs) > 0.0 && BucketsOf(cs, power) != [])
      && (s.Some? ==> Describe(s.value, cs, power, f))
  {
    hide GatheredFrom, Contributions, BucketsOf, SumOfCounts, SumOfSums, AllSummed, IsLeastMin, IsGreatestMax,
      StatsOf;
    GatheredIsContributed(rows, group, power);
    StatsFields(GatheredFrom(rows, group, power), f);
  }

  lemma {:induction false} Pow2Adds(m: nat, n: nat)
    ensures Pow2(m + n) == Pow2(m) * Pow2(n)
  {
    if m > 0 {
      Pow2Adds(m - 1, n);
      assert Pow2(m - 1 + n) == Pow2(m - 1) * Pow2(n);
      assert 2.0 * (Pow2(m - 1) * Pow2(n)) == (2.0 * Pow2(m - 1)) * Pow2(n);
    }
  }

  lemma FinenessIs()
    ensures Pow2(81) == FINENESS
  {
    var two := Pow2(1);
    assert two == 2.0 by { assert Pow2(0) == 1.0; }
    Pow2Adds(1, 1);
    assert Pow2(2) == 4.0;
    Pow2Adds(2, 2);
    Pow2Adds(4, 4);
    Pow2Adds(8, 8);
    Pow2Adds(16, 16);
    Pow2Adds(32, 32);
    Pow2Adds(64, 16);
    Pow2Adds(80, 1);
  }

  lemma EstimateIsPercentile(buckets: seq<Bucket>, q: real, f: Interpolation)
    requires IsInterpolation(f) && WellFormed(buckets) && Total(buckets) > 0.0 && 0.0 < q <= 1.0 && buckets != []
    ensures IsPercentile(QuantileOf(buckets, q, f), buckets, q, f)
  {
    hide Total, LowEdge, HighEdge, Estimate, IsLeastReaching, IsSharePoint, TargetMass, WellFormed, IsInterpolation,
      Pow2;
    FinenessIs();
    EstimateExists(buckets, TargetMass(buckets, q), f);
    forall x | IsSharePoint(buckets, q, x, f)
      ensures var v := QuantileOf(buckets, q, f).value;
        -(HighEdge(buckets) - LowEdge(buckets)) <= (v - x) * FINENESS <= HighEdge(buckets) - LowEdge(buckets)
    {
      SharePointIsLeast(buckets, q, x, f);
      QuantileError(buckets, q, x, f);
    }
  }

  lemma SharePointIsLeast(buckets: seq<Bucket>, share: real, x: real, f: Interpolation)
    ensures IsSharePoint(buckets, share, x, f) <==> IsLeastReaching(buckets, TargetMass(buckets, share), x, f)
  {
    hide Cdf, Total;
  }

  lemma EstimateExists(buckets: seq<Bucket>, target: real, f: Interpolation)
    requires buckets != [] && Total(buckets) > 0.0
    ensures Estimate(buckets, target, STEPS, f).Some?
  {
    hide Bisect, Total;
  }

  /** And the percentiles are those of the merged buckets, when occupied outer buckets fit their extremes. */
  lemma PercentilesDescribe(rows: seq<Point>, group: string, power: Power, f: Interpolation)
    requires IsInterpolation(f) && IsPower(power)
    requires forall k :: 0 <= k < |rows| ==> HasOrderedEdges(rows[k], PointCounts(rows[k]))
    requires StatsOf(GatheredFrom(rows, group, power), f).Some?
    ensures DescribePercentiles(StatsOf(GatheredFrom(rows, group, power), f).value,
              BucketsOf(Contributions(rows, group), power), f)
  {
    var g := GatheredFrom(rows, group, power);
    GatheredIsWellFormed(rows, group, power);
    GatheredIsCounted(rows, group, power);
    CountedTotal(g.buckets);
    GatheredIsContributed(rows, group, power);
    hide GatheredFrom, Contributions, BucketsOf, QuantileOf, IsPercentile, Total, WellFormed, IsInterpolation,
      HasOrderedEdges;
    EstimateIsPercentile(g.buckets, 0.50, f);
    EstimateIsPercentile(g.buckets, 0.90, f);
    EstimateIsPercentile(g.buckets, 0.95, f);
    EstimateIsPercentile(g.buckets, 0.99, f);
  }

  lemma {:induction false} LinearAppend(a: seq<Bucket>, b: seq<Bucket>)
    requires IsLinear(a) && IsLinear(b)
    ensures IsLinear(a + b)
  {
    forall i | 0 <= i < |a + b|
      ensures !((a + b)[i].logarithmic && ((a + b)[i].low > 0.0 || (a + b)[i].high < 0.0))
    {
      if i >= |a| { assert (a + b)[i] == b[i - |a|]; } else { assert (a + b)[i] == a[i]; }
    }
  }

  lemma {:induction false} ExplicitIsLinear(p: Point, counts: seq<nat>, n: nat, power: Power)
    requires HasShape(p, counts) && n <= |counts| && p.layout.Explicit?
    ensures IsLinear(EmittedUpTo(p, counts, n, power))
  {
    if n > 0 {
      ExplicitIsLinear(p, counts, n - 1, power);
      LinearAppend(EmittedUpTo(p, counts, n - 1, power),
                   if counts[n - 1] == 0 then [] else [BucketAt(p, n - 1, counts[n - 1], power)]);
    }
  }

  lemma {:induction false} ContributedIsLinear(cs: seq<Contribution>, power: Power)
    requires forall k :: 0 <= k < |cs| ==> !cs[k].point.layout.Exponential?
    ensures IsLinear(BucketsOf(cs, power))
  {
    hide EmittedUpTo, IsLinear;
    if cs == [] {
      assert IsLinear([]) by { NoneIsLinear(); }
    } else {
      var n := |cs| - 1;
      var c := cs[n];
      ContributedIsLinear(cs[..n], power);
      if HasShape(c.point, c.share.counts) {
        ExplicitIsLinear(c.point, c.share.counts, |c.share.counts|, power);
      } else {
        NoneIsLinear();
      }
      LinearAppend(BucketsOf(cs[..n], power), Emitted(c.point, c.share.counts, power));
    }
  }

  lemma NoneIsLinear()
    ensures IsLinear([])
  {
  }

  /** Without exponential points each percentile has the point it stands for, so the bounds on it assume nothing. */
  lemma PercentilePoint(rows: seq<Point>, group: string, share: real, power: Power, f: Interpolation) returns (x: real)
    requires IsInterpolation(f) && IsPower(power) && 0.0 < share <= 1.0
    requires forall k :: 0 <= k < |rows| ==> HasOrderedEdges(rows[k], PointCounts(rows[k]))
    requires forall k :: 0 <= k < |Contributions(rows, group)| ==>
      !Contributions(rows, group)[k].point.layout.Exponential?
    requires StatsOf(GatheredFrom(rows, group, power), f).Some?
    ensures IsSharePoint(BucketsOf(Contributions(rows, group), power), share, x, f)
  {
    hide GatheredFrom, Contributions, BucketsOf, QuantileOf, Total, WellFormed, IsInterpolation, HasOrderedEdges,
      IsLinear,
      IsSharePoint, IsLeastMin, IsGreatestMax, AllSummed, SumOfCounts, SumOfSums;
    var buckets := GatheredFrom(rows, group, power).buckets;
    GatheredIsWellFormed(rows, group, power);
    GatheredIsCounted(rows, group, power);
    CountedTotal(buckets);
    GatheredIsContributed(rows, group, power);
    ContributedIsLinear(Contributions(rows, group), power);
    x := SharePointExists(buckets, share, f);
  }

  lemma SharePointExists(buckets: seq<Bucket>, share: real, f: Interpolation) returns (x: real)
    requires IsInterpolation(f) && IsLinear(buckets) && WellFormed(buckets)
    requires Total(buckets) > 0.0 && 0.0 < share <= 1.0
    requires buckets != []
    ensures IsSharePoint(buckets, share, x, f)
  {
    hide Total, Cdf, IsInterpolation, IsLinear, WellFormed, IsSharePoint, IsLeastReaching;
    TargetReached(buckets, share);
    x := LeastPointExists(buckets, TargetMass(buckets, share), f);
    SharePointIsLeast(buckets, share, x, f);
  }

  // ---- What one point's buckets are ----

  lemma {:induction false} EmittedHas(p: Point, counts: seq<nat>, n: nat, power: Power)
    requires HasShape(p, counts) && n <= |counts|
    ensures forall i :: 0 <= i < n && counts[i] > 0 ==>
      BucketAt(p, i, counts[i], power) in EmittedUpTo(p, counts, n, power)
    ensures forall b :: b in EmittedUpTo(p, counts, n, power) ==>
      exists i :: 0 <= i < n && counts[i] > 0 && b == BucketAt(p, i, counts[i], power)
  {
    hide BucketAt;
    if n > 0 { EmittedHas(p, counts, n - 1, power); }
  }

  /** From one power of the base to the next. */
  function PositiveBucket(p: Point, k: int, count: nat, power: Power): Bucket
    requires p.layout.Exponential? && p.layout.scale.Some?
  {
    var scale := p.layout.scale.value;
    Bucket(power(scale, p.positiveOffset + k), power(scale, p.positiveOffset + k + 1), count as real, true)
  }

  /** The same mirrored below zero. */
  function NegativeBucket(p: Point, k: int, count: nat, power: Power): Bucket
    requires p.layout.Exponential? && p.layout.scale.Some?
  {
    var scale := p.layout.scale.value;
    Bucket(-power(scale, p.negativeOffset + k + 1), -power(scale, p.negativeOffset + k), count as real, true)
  }

  /** The occupied buckets of an exponential point, zero's among them. */
  ghost predicate IsExponentialBucket(p: Point, b: Bucket, power: Power)
    requires p.layout.Exponential? && p.layout.scale.Some?
  {
    || (exists k :: 0 <= k < |p.positive| && p.positive[k] > 0 && b == PositiveBucket(p, k, p.positive[k], power))
    || (exists k :: 0 <= k < |p.negative| && p.negative[k] > 0 && b == NegativeBucket(p, k, p.negative[k], power))
    || (p.zeroCount > 0 && b == Bucket(-p.layout.zeroThreshold, p.layout.zeroThreshold, p.zeroCount as real, false))
  }

  lemma ExponentialBucketAt(p: Point, i: nat, power: Power)
    requires p.layout.Exponential? && p.layout.scale.Some? && i < |PointCounts(p)| && PointCounts(p)[i] > 0
    ensures IsExponentialBucket(p, BucketAt(p, i, PointCounts(p)[i], power), power)
  {
    var counts, n := PointCounts(p), |p.negative|;
    var b := BucketAt(p, i, counts[i], power);
    if i < n {
      assert counts[i] == p.negative[i] && b == NegativeBucket(p, i, p.negative[i], power);
    } else if i > n {
      assert counts[i] == p.positive[i - n - 1] && b == PositiveBucket(p, i - n - 1, p.positive[i - n - 1], power);
    }
  }

  lemma ExponentialPosition(p: Point, b: Bucket, power: Power) returns (i: nat)
    requires p.layout.Exponential? && p.layout.scale.Some? && IsExponentialBucket(p, b, power)
    ensures i < |PointCounts(p)| && PointCounts(p)[i] > 0 && b == BucketAt(p, i, PointCounts(p)[i], power)
  {
    var n := |p.negative|;
    if k :| 0 <= k < |p.positive| && p.positive[k] > 0 && b == PositiveBucket(p, k, p.positive[k], power) {
      i := n + 1 + k;
    } else if k :| 0 <= k < |p.negative| && p.negative[k] > 0 && b == NegativeBucket(p, k, p.negative[k], power) {
      i := k;
    } else {
      i := n;
    }
  }

  /** A delta exponential point emits exactly those buckets. */
  lemma ExponentialBucketsAre(p: Point, b: Bucket, power: Power)
    requires p.layout.Exponential? && p.layout.scale.Some?
    ensures b in Emitted(p, PointCounts(p), power) <==> IsExponentialBucket(p, b, power)
  {
    var counts := PointCounts(p);
    EmittedHas(p, counts, |counts|, power);
    hide IsExponentialBucket, BucketAt, EmittedUpTo, PointCounts;
    if b in Emitted(p, counts, power) {
      var i :| 0 <= i < |counts| && counts[i] > 0 && b == BucketAt(p, i, counts[i], power);
      ExponentialBucketAt(p, i, power);
    }
    if IsExponentialBucket(p, b, power) { var _ := ExponentialPosition(p, b, power); }
  }

  /** The occupied buckets of an explicit point, bound to bound, the outer ones closed by the known extremes. */
  ghost predicate IsExplicitBucket(p: Point, b: Bucket)
    requires p.layout.Explicit? && |p.explicitCounts| == |p.layout.bounds| + 1 && p.layout.bounds != []
  {
    var bounds, counts := p.layout.bounds, p.explicitCounts;
    var n := |bounds|;
    || (exists i :: 0 < i < n && counts[i] > 0 && b == Bucket(bounds[i - 1], bounds[i], counts[i] as real, false))
    || (counts[0] > 0 && b.high == bounds[0] && b.count == counts[0] as real && !b.logarithmic
        && b.low == if p.min.Some? then p.min.value else if bounds[0] < 0.0 then bounds[0] else 0.0)
    || (counts[n] > 0 && b.low == bounds[n - 1] && b.count == counts[n] as real && !b.logarithmic
        && b.high == if p.max.Some? then p.max.value else if bounds[n - 1] > 0.0 then bounds[n - 1] else 0.0)
  }

  lemma ExplicitBucketAt(p: Point, i: nat, power: Power)
    requires p.layout.Explicit? && |p.explicitCounts| == |p.layout.bounds| + 1 && p.layout.bounds != []
    requires i < |p.explicitCounts| && p.explicitCounts[i] > 0
    ensures IsExplicitBucket(p, BucketAt(p, i, p.explicitCounts[i], power))
  {
    var b, bounds := BucketAt(p, i, p.explicitCounts[i], power), p.layout.bounds;
    if 0 < i < |bounds| { assert b == Bucket(bounds[i - 1], bounds[i], p.explicitCounts[i] as real, false); }
  }

  lemma ExplicitPosition(p: Point, b: Bucket, power: Power) returns (i: nat)
    requires p.layout.Explicit? && |p.explicitCounts| == |p.layout.bounds| + 1 && p.layout.bounds != []
    requires IsExplicitBucket(p, b)
    ensures i < |p.explicitCounts| && p.explicitCounts[i] > 0 && b == BucketAt(p, i, p.explicitCounts[i], power)
  {
    var bounds, counts := p.layout.bounds, p.explicitCounts;
    if k :| 0 < k < |bounds| && counts[k] > 0 && b == Bucket(bounds[k - 1], bounds[k], counts[k] as real, false) {
      i := k;
    } else {
      var first := Bucket(ExplicitLow(p, 0), bounds[0], counts[0] as real, false);
      i := if counts[0] > 0 && b == first then 0 else |bounds|;
    }
  }

  /** A delta explicit point emits exactly those buckets. */
  lemma ExplicitBucketsAre(p: Point, b: Bucket, power: Power)
    requires p.layout.Explicit? && |p.explicitCounts| == |p.layout.bounds| + 1 && p.layout.bounds != []
    ensures b in Emitted(p, PointCounts(p), power) <==> IsExplicitBucket(p, b)
  {
    var counts := p.explicitCounts;
    EmittedHas(p, counts, |counts|, power);
    hide IsExplicitBucket, BucketAt, EmittedUpTo;
    if b in Emitted(p, counts, power) {
      var i :| 0 <= i < |counts| && counts[i] > 0 && b == BucketAt(p, i, counts[i], power);
      ExplicitBucketAt(p, i, power);
    }
    if IsExplicitBucket(p, b) { var _ := ExplicitPosition(p, b, power); }
  }

  // ---- What one point adds ----

  /** A delta point adds what it recorded; a cumulative one without a baseline of its series and layout adds nothing. */
  lemma ShareOfDelta(p: Point, previous: Option<Point>)
    ensures !p.cumulative ==> ShareOf(p, previous).Some?
    ensures p.cumulative && ShareOf(p, previous).Some? ==> previous.Some? && previous.value.series == p.series
    ensures p.cumulative && ShareOf(p, previous).Some? ==>
      p.layoutHash.Some? && previous.value.layoutHash == p.layoutHash
    ensures previous.Some? && previous.value.series == p.series ==>
      (p.layoutHash.Some? && previous.value.layoutHash == p.layoutHash ==> ShareOf(p, previous).Some?)
    ensures !p.cumulative ==> AddsRecorded(p, ShareOf(p, previous).value)
    ensures p.cumulative && ShareOf(p, previous).Some? ==>
      var q := previous.value;
      && (p.start.Some? && q.start.Some? && p.start != q.start ==> AddsRecorded(p, ShareOf(p, previous).value))
      && (p.count.Some? && q.count.Some? && p.count.value < q.count.value ==>
            AddsRecorded(p, ShareOf(p, previous).value))
  {
  }

  /** Everything the point recorded. */
  predicate AddsRecorded(p: Point, share: Share) {
    && share.counts == PointCounts(p) && share.sum == p.sum
    && (share.count.Some? <==> p.count.Some?) && (p.count.Some? ==> share.count.value == p.count.value as real)
  }

  /** A cumulative point going on from its baseline adds its growth, bucket by bucket, in count and in sum. */
  lemma ShareOfCumulative(p: Point, q: Point)
    requires p.cumulative && q.series == p.series && p.layoutHash.Some? && q.layoutHash == p.layoutHash
    requires p.start.None? || q.start.None? || p.start == q.start
    requires p.count.Some? && q.count.Some? && q.count.value <= p.count.value && p.sum.Some? && q.sum.Some?
    requires |PointCounts(p)| == |PointCounts(q)|
    requires forall i :: 0 <= i < |PointCounts(p)| ==> PointCounts(q)[i] <= PointCounts(p)[i]
    ensures var share := ShareOf(p, Some(q));
      && share.Some? && share.value.count.Some? && share.value.sum.Some?
      && share.value.count.value + q.count.value as real == p.count.value as real
      && share.value.sum.value + q.sum.value == p.sum.value
      && |share.value.counts| == |PointCounts(p)|
      && forall i :: 0 <= i < |PointCounts(p)| ==> share.value.counts[i] + PointCounts(q)[i] == PointCounts(p)[i]
  {
    assert Dominates(PointCounts(p), PointCounts(q));
  }
}
