// Percentiles of merged histogram buckets: an interpolated distribution function and a fixed-length bisection.
module Quantile {
  import opened Order

  datatype Bucket = Bucket(low: real, high: real, count: real, logarithmic: bool)

  const STEPS: nat := 80

  /** The share of an exponential bucket at or below a point; all that is used of it is that it grows from 0 to 1. */
  type Interpolation = (real, real, real) -> real

  ghost predicate IsInterpolation(f: Interpolation) {
    (forall low, high, x :: low <= x < high ==> 0.0 <= f(low, high, x) <= 1.0) &&
    (forall low, high, x, y :: low <= x <= y < high ==> f(low, high, x) <= f(low, high, y))
  }

  function Share(b: Bucket, x: real, f: Interpolation): real
    requires b.low < b.high
  {
    if b.logarithmic && (b.low > 0.0 || b.high < 0.0) then f(b.low, b.high, x) else (x - b.low) / (b.high - b.low)
  }

  /** That share of a bucket's count. */
  function Portion(count: real, share: real): real { count * share }

  /** One bucket's mass at or below `x`. */
  function Mass(b: Bucket, x: real, f: Interpolation): real {
    if x < b.low then 0.0
    else if x >= b.high || b.high <= b.low then b.count
    else Portion(b.count, Share(b, x, f))
  }

  function Cdf(buckets: seq<Bucket>, x: real, f: Interpolation): real {
    if buckets == [] then 0.0 else Cdf(buckets[..|buckets| - 1], x, f) + Mass(buckets[|buckets| - 1], x, f)
  }

  function Total(buckets: seq<Bucket>): real {
    if buckets == [] then 0.0 else Total(buckets[..|buckets| - 1]) + buckets[|buckets| - 1].count
  }

  method HistogramCDF(buckets: seq<Bucket>, x: real, f: Interpolation) returns (result: real)
    ensures result == Cdf(buckets, x, f)
  {
    result := 0.0;
    for i := 0 to |buckets|
      invariant result == Cdf(buckets[..i], x, f)
    {
      assert buckets[..i + 1][..i] == buckets[..i];
      var b := buckets[i];
      if x < b.low { continue; }
      if x >= b.high || b.high <= b.low {
        result := result + b.count;
        continue;
      }
      result := result + b.count * Share(b, x, f);
    }
    assert buckets[..|buckets|] == buckets;
  }

  /** Counts are counts, and no bucket is inverted. */
  ghost predicate WellFormed(buckets: seq<Bucket>) {
    forall i :: 0 <= i < |buckets| ==> buckets[i].count >= 0.0 && buckets[i].low <= buckets[i].high
  }

  ghost predicate WithinEdges(buckets: seq<Bucket>, low: real, high: real) {
    forall i :: 0 <= i < |buckets| ==> low <= buckets[i].low && buckets[i].high <= high
  }

  // ---- The distribution function ----

  lemma LinearShare(low: real, high: real, x: real, y: real)
    requires low < high && low <= x <= y < high
    ensures 0.0 <= (x - low) / (high - low) <= (y - low) / (high - low) <= 1.0
  {
  }

  lemma Scaled(c: real, a: real, b: real)
    requires c >= 0.0 && a <= b
    ensures c * a <= c * b
  {
  }

  lemma ShareGrows(b: Bucket, x: real, y: real, f: Interpolation)
    requires IsInterpolation(f) && b.low <= x <= y < b.high
    ensures 0.0 <= Share(b, x, f) <= Share(b, y, f) <= 1.0
  {
    LinearShare(b.low, b.high, x, y);
  }

  lemma PortionOrder(c: real, a: real, b: real)
    requires c >= 0.0 && a <= b
    ensures Portion(c, a) <= Portion(c, b)
  {
    Scaled(c, a, b);
  }

  lemma PortionEnds(c: real)
    ensures Portion(c, 0.0) == 0.0 && Portion(c, 1.0) == c
  {
  }

  lemma PortionGrows(c: real, a: real, b: real)
    requires c >= 0.0 && 0.0 <= a <= b <= 1.0
    ensures 0.0 <= Portion(c, a) <= Portion(c, b) <= c
  {
    PortionOrder(c, 0.0, a);
    PortionOrder(c, a, b);
    PortionOrder(c, b, 1.0);
    hide Portion;
    PortionEnds(c);
  }

  lemma MassWithin(b: Bucket, x: real, f: Interpolation)
    requires IsInterpolation(f) && b.count >= 0.0
    ensures 0.0 <= Mass(b, x, f) <= b.count
  {
    if b.low <= x < b.high {
      ShareGrows(b, x, x, f);
      hide Share, Portion, IsInterpolation;
      PortionGrows(b.count, Share(b, x, f), Share(b, x, f));
    }
  }

  lemma MassGrows(b: Bucket, x: real, y: real, f: Interpolation)
    requires IsInterpolation(f) && b.count >= 0.0 && x <= y
    ensures 0.0 <= Mass(b, x, f) <= Mass(b, y, f) <= b.count
  {
    MassWithin(b, x, f);
    MassWithin(b, y, f);
    if b.low <= x && y < b.high {
      ShareGrows(b, x, y, f);
      hide Share, Portion, IsInterpolation;
      PortionGrows(b.count, Share(b, x, f), Share(b, y, f));
    }
  }

  /** The distribution function never decreases, and stays between zero and the total. */
  lemma {:induction false} CdfGrows(buckets: seq<Bucket>, x: real, y: real, f: Interpolation)
    requires IsInterpolation(f) && x <= y && forall i :: 0 <= i < |buckets| ==> buckets[i].count >= 0.0
    ensures 0.0 <= Cdf(buckets, x, f) <= Cdf(buckets, y, f) <= Total(buckets)
  {
    if buckets != [] {
      CdfGrows(buckets[..|buckets| - 1], x, y, f);
      MassGrows(buckets[|buckets| - 1], x, y, f);
    }
  }

  /** It is zero below the lowest edge and the total from the highest edge on. */
  lemma {:induction false} CdfAtEdges(buckets: seq<Bucket>, low: real, high: real, x: real, f: Interpolation)
    requires WellFormed(buckets) && WithinEdges(buckets, low, high)
    ensures x < low ==> Cdf(buckets, x, f) == 0.0
    ensures x >= high ==> Cdf(buckets, x, f) == Total(buckets)
  {
    if buckets != [] { CdfAtEdges(buckets[..|buckets| - 1], low, high, x, f); }
  }

  // ---- Bisection ----

  function Pow2(n: nat): (p: real)
    ensures p >= 1.0
  {
    if n == 0 then 1.0 else 2.0 * Pow2(n - 1)
  }

  /** The bracket after `n` halvings. */
  function Bisect(buckets: seq<Bucket>, target: real, low: real, high: real, n: nat,
                  f: Interpolation): (r: (real, real)) {
    if n == 0 then (low, high)
    else
      var (l, h) := Bisect(buckets, target, low, high, n - 1, f);
      var mid := l + (h - l) / 2.0;
      if Cdf(buckets, mid, f) < target then (mid, h) else (l, mid)
  }

  function LowEdge(buckets: seq<Bucket>): real
    requires buckets != []
  {
    var n := |buckets| - 1;
    if n == 0 then buckets[0].low
    else var rest := LowEdge(buckets[..n]); if buckets[n].low < rest then buckets[n].low else rest
  }

  function HighEdge(buckets: seq<Bucket>): real
    requires buckets != []
  {
    var n := |buckets| - 1;
    if n == 0 then buckets[0].high
    else var rest := HighEdge(buckets[..n]); if buckets[n].high > rest then buckets[n].high else rest
  }

  lemma {:induction false} EdgesBound(buckets: seq<Bucket>)
    requires buckets != []
    ensures WithinEdges(buckets, LowEdge(buckets), HighEdge(buckets))
  {
    var n := |buckets| - 1;
    if n > 0 {
      EdgesBound(buckets[..n]);
      assert forall i :: 0 <= i < n ==> buckets[..n][i] == buckets[i];
    }
  }

  /** The middle of the last of `steps` brackets around a target mass; `None` without observations. */
  function Estimate(buckets: seq<Bucket>, target: real, steps: nat, f: Interpolation): Option<real> {
    if buckets == [] || Total(buckets) <= 0.0 then None
    else
      var (l, h) := Bisect(buckets, target, LowEdge(buckets), HighEdge(buckets), steps, f);
      Some(l + (h - l) / 2.0)
  }

  function TargetMass(buckets: seq<Bucket>, q: real): real { q * Total(buckets) }

  /** Total mass and outer edges, in one pass. */
  method Extent(buckets: seq<Bucket>) returns (total: real, low: real, high: real)
    requires buckets != []
    ensures total == Total(buckets) && low == LowEdge(buckets) && high == HighEdge(buckets)
  {
    total, low, high := 0.0, buckets[0].low, buckets[0].high;
    for i := 0 to |buckets|
      invariant total == Total(buckets[..i])
      invariant low == if i == 0 then buckets[0].low else LowEdge(buckets[..i])
      invariant high == if i == 0 then buckets[0].high else HighEdge(buckets[..i])
    {
      assert buckets[..i + 1][..i] == buckets[..i];
      total := total + buckets[i].count;
      if buckets[i].low < low { low := buckets[i].low; }
      if buckets[i].high > high { high := buckets[i].high; }
    }
    assert buckets[..|buckets|] == buckets;
  }

  /** The bisection with its number of steps left open. */
  method BisectTarget(buckets: seq<Bucket>, target: real, low0: real, high0: real, steps: nat, f: Interpolation)
    returns (value: real)
    ensures var (l, h) := Bisect(buckets, target, low0, high0, steps, f); value == l + (h - l) / 2.0
  {
    var low, high := low0, high0;
    for step := 0 to steps
      invariant (low, high) == Bisect(buckets, target, low0, high0, step, f)
    {
      var mid := low + (high - low) / 2.0;
      var cdf := HistogramCDF(buckets, mid, f);
      if cdf < target { low := mid; } else { high := mid; }
    }
    value := low + (high - low) / 2.0;
  }

  method HistogramQuantile(buckets: seq<Bucket>, q: real, f: Interpolation) returns (value: Option<real>)
    ensures value == Estimate(buckets, TargetMass(buckets, q), STEPS, f)
  {
    hide Bisect, Total, LowEdge, HighEdge;
    if buckets == [] { return None; }
    var total, low, high := Extent(buckets);
    if total <= 0.0 { return None; }
    var target := q * total;
    assert target == TargetMass(buckets, q);
    hide TargetMass;
    var estimate := BisectTarget(buckets, target, low, high, STEPS, f);
    value := Some(estimate);
  }

  /** Each step halves the bracket, and its ends stay on their sides of the target. */
  lemma {:induction false} BisectBrackets(buckets: seq<Bucket>, target: real, low: real, high: real, n: nat,
                                          f: Interpolation)
    requires low <= high && Cdf(buckets, high, f) >= target
    ensures var (l, h) := Bisect(buckets, target, low, high, n, f);
      low <= l <= h <= high && Cdf(buckets, h, f) >= target && (l == low || Cdf(buckets, l, f) < target)
  {
    if n > 0 { BisectBrackets(buckets, target, low, high, n - 1, f); }
  }

  /** The bracket is a 2^n-th of the width it started with. */
  ghost predicate IsHalved(l: real, h: real, n: nat, width: real) { (h - l) * Pow2(n) == width }

  /** `v` is within a 2^n-th of `width` of `x`. */
  ghost predicate IsWithin(v: real, x: real, n: nat, width: real) { -width <= (v - x) * Pow2(n) <= width }

  lemma {:induction false} BisectHalves(buckets: seq<Bucket>, target: real, low: real, high: real, n: nat,
                                        f: Interpolation)
    ensures var (l, h) := Bisect(buckets, target, low, high, n, f); IsHalved(l, h, n, high - low)
  {
    if n == 0 {
      StartsWhole(low, high);
    } else {
      hide IsHalved, Cdf;
      BisectHalves(buckets, target, low, high, n - 1, f);
      var (l, h) := Bisect(buckets, target, low, high, n - 1, f);
      HalfIsHalved(l, h, n - 1, high - low);
    }
  }

  lemma StartsWhole(low: real, high: real)
    ensures IsHalved(low, high, 0, high - low)
  {
  }

  lemma HalfIsHalved(l: real, h: real, n: nat, width: real)
    requires IsHalved(l, h, n, width)
    ensures IsHalved(l + (h - l) / 2.0, h, n + 1, width) && IsHalved(l, l + (h - l) / 2.0, n + 1, width)
  {
    Doubling((h - l) / 2.0, Pow2(n));
    assert h - (l + (h - l) / 2.0) == (h - l) / 2.0 == (l + (h - l) / 2.0) - l;
  }

  lemma Doubling(w: real, p: real)
    ensures w * (2.0 * p) == (2.0 * w) * p
  {
  }

  /** `x` is the least point whose distribution value reaches the target. */
  ghost predicate IsLeastReaching(buckets: seq<Bucket>, target: real, x: real, f: Interpolation) {
    Cdf(buckets, x, f) >= target && forall y :: y < x ==> Cdf(buckets, y, f) < target
  }

  /** The least point reaching the target never leaves the bracket. */
  lemma {:induction false} LeastStaysBracketed(buckets: seq<Bucket>, target: real, low: real, high: real, n: nat,
                                               x: real, f: Interpolation)
    requires IsInterpolation(f) && WellFormed(buckets) && IsLeastReaching(buckets, target, x, f) && low <= x <= high
    ensures var (l, h) := Bisect(buckets, target, low, high, n, f); l <= x <= h
  {
    if n > 0 {
      LeastStaysBracketed(buckets, target, low, high, n - 1, x, f);
      var (l, h) := Bisect(buckets, target, low, high, n - 1, f);
      var mid := l + (h - l) / 2.0;
      if Cdf(buckets, mid, f) < target && x <= mid { CdfGrows(buckets, x, mid, f); }
    }
  }

  lemma TargetReached(buckets: seq<Bucket>, q: real)
    requires Total(buckets) > 0.0 && 0.0 < q <= 1.0
    ensures 0.0 < TargetMass(buckets, q) <= Total(buckets)
  {
    hide Total;
    Scaled(Total(buckets), q, 1.0);
  }

  lemma TopReachesTotal(buckets: seq<Bucket>, f: Interpolation)
    requires WellFormed(buckets) && buckets != []
    ensures LowEdge(buckets) <= HighEdge(buckets) && Cdf(buckets, HighEdge(buckets), f) == Total(buckets)
  {
    EdgesBound(buckets);
    CdfAtEdges(buckets, LowEdge(buckets), HighEdge(buckets), HighEdge(buckets), f);
    assert LowEdge(buckets) <= buckets[0].low <= buckets[0].high <= HighEdge(buckets);
  }

  lemma LeastIsWithinEdges(buckets: seq<Bucket>, target: real, x: real, f: Interpolation)
    requires WellFormed(buckets) && buckets != [] && 0.0 < target <= Total(buckets)
    requires IsLeastReaching(buckets, target, x, f)
    ensures LowEdge(buckets) <= x <= HighEdge(buckets)
  {
    TopReachesTotal(buckets, f);
    EdgesBound(buckets);
    CdfAtEdges(buckets, LowEdge(buckets), HighEdge(buckets), x, f);
  }

  /** The estimate is within half the last bracket of the least point reaching the target mass. */
  lemma EstimateError(buckets: seq<Bucket>, target: real, x: real, steps: nat, f: Interpolation)
    requires IsInterpolation(f) && WellFormed(buckets) && buckets != [] && 0.0 < target <= Total(buckets)
    requires IsLeastReaching(buckets, target, x, f)
    ensures Estimate(buckets, target, steps, f).Some?
    ensures IsWithin(Estimate(buckets, target, steps, f).value, x, steps + 1, HighEdge(buckets) - LowEdge(buckets))
  {
    hide IsHalved, IsWithin, Cdf, Total, LowEdge, HighEdge, WellFormed, IsInterpolation, IsLeastReaching;
    var low, high := LowEdge(buckets), HighEdge(buckets);
    TopReachesTotal(buckets, f);
    LeastIsWithinEdges(buckets, target, x, f);
    LeastStaysBracketed(buckets, target, low, high, steps, x, f);
    BisectHalves(buckets, target, low, high, steps, f);
    var (l, h) := Bisect(buckets, target, low, high, steps, f);
    MidpointError(l, h, x, steps, high - low);
  }

  lemma MidpointError(l: real, h: real, x: real, n: nat, w: real)
    requires l <= x <= h && IsHalved(l, h, n, w)
    ensures IsWithin(l + (h - l) / 2.0, x, n + 1, w)
  {
    var e, p := l + (h - l) / 2.0 - x, Pow2(n);
    Scaled(p, -(h - l), 2.0 * e);
    Scaled(p, 2.0 * e, h - l);
    Doubling(e, p);
  }

  /** Without assuming such a point: the estimate is the middle of a bracket that narrow, around the target. */
  lemma EstimateIsBracketed(buckets: seq<Bucket>, target: real, steps: nat, f: Interpolation) returns (l: real, h: real)
    requires WellFormed(buckets) && buckets != [] && 0.0 < target <= Total(buckets)
    ensures Estimate(buckets, target, steps, f) == Some(l + (h - l) / 2.0)
    ensures LowEdge(buckets) <= l <= h <= HighEdge(buckets)
    ensures IsHalved(l, h, steps, HighEdge(buckets) - LowEdge(buckets))
    ensures Cdf(buckets, h, f) >= target && (l == LowEdge(buckets) || Cdf(buckets, l, f) < target)
  {
    hide IsHalved, Cdf, LowEdge, HighEdge;
    TopReachesTotal(buckets, f);
    BisectBrackets(buckets, target, LowEdge(buckets), HighEdge(buckets), steps, f);
    BisectHalves(buckets, target, LowEdge(buckets), HighEdge(buckets), steps, f);
    var r := Bisect(buckets, target, LowEdge(buckets), HighEdge(buckets), steps, f);
    l, h := r.0, r.1;
  }

  /** A higher target never bisects further left: after every step the brackets coincide or lie apart in order. */
  lemma {:induction false} BisectOrdered(buckets: seq<Bucket>, s: real, t: real, low: real, high: real, n: nat,
                                         f: Interpolation)
    requires s <= t
    ensures var (l, h) := Bisect(buckets, s, low, high, n, f);
      var (l', h') := Bisect(buckets, t, low, high, n, f);
      && (low <= high ==> l <= h && l' <= h' && ((l == l' && h == h') || h <= l'))
      && (low >= high ==> l >= h && l' >= h' && ((l == l' && h == h') || h >= l'))
  {
    hide Cdf;
    if n > 0 { BisectOrdered(buckets, s, t, low, high, n - 1, f); }
  }

  /** Estimates are ordered as their targets are; against them, should the outer edges be crossed. */
  lemma EstimatesOrdered(buckets: seq<Bucket>, s: real, t: real, steps: nat, f: Interpolation)
    requires buckets != [] && Total(buckets) > 0.0 && s <= t
    ensures Estimate(buckets, s, steps, f).Some? && Estimate(buckets, t, steps, f).Some?
    ensures LowEdge(buckets) <= HighEdge(buckets) ==>
      Estimate(buckets, s, steps, f).value <= Estimate(buckets, t, steps, f).value
    ensures LowEdge(buckets) >= HighEdge(buckets) ==>
      Estimate(buckets, s, steps, f).value >= Estimate(buckets, t, steps, f).value
  {
    hide Bisect, LowEdge, HighEdge, Total;
    BisectOrdered(buckets, s, t, LowEdge(buckets), HighEdge(buckets), steps, f);
  }

  /** The 80-step estimate is within a 2^81-th of the value range of the least point reaching its mass. */
  lemma QuantileError(buckets: seq<Bucket>, q: real, x: real, f: Interpolation)
    requires IsInterpolation(f) && WellFormed(buckets) && Total(buckets) > 0.0 && 0.0 < q <= 1.0
    requires IsLeastReaching(buckets, TargetMass(buckets, q), x, f)
    ensures buckets != [] && Estimate(buckets, TargetMass(buckets, q), STEPS, f).Some?
    ensures IsWithin(Estimate(buckets, TargetMass(buckets, q), STEPS, f).value, x, 81,
                     HighEdge(buckets) - LowEdge(buckets))
  {
    hide Bisect, IsWithin, Estimate, TargetMass;
    TargetReached(buckets, q);
    EstimateError(buckets, TargetMass(buckets, q), x, STEPS, f);
  }

  lemma TargetGrows(buckets: seq<Bucket>, p: real, q: real)
    requires Total(buckets) > 0.0 && p <= q
    ensures TargetMass(buckets, p) <= TargetMass(buckets, q)
  {
    hide Total;
    var total := Total(buckets);
    assert p * total == total * p && q * total == total * q;
    Scaled(total, p, q);
  }

  /** P50, P90, P95 and P99 come out in the order of the outer edges. */
  lemma QuantilesOrdered(buckets: seq<Bucket>, p: real, q: real, f: Interpolation)
    requires buckets != [] && Total(buckets) > 0.0 && p <= q
    ensures Estimate(buckets, TargetMass(buckets, p), STEPS, f).Some? &&
      Estimate(buckets, TargetMass(buckets, q), STEPS, f).Some?
    ensures LowEdge(buckets) <= HighEdge(buckets) ==>
      Estimate(buckets, TargetMass(buckets, p), STEPS, f).value
      <= Estimate(buckets, TargetMass(buckets, q), STEPS, f).value
    ensures LowEdge(buckets) >= HighEdge(buckets) ==>
      Estimate(buckets, TargetMass(buckets, p), STEPS, f).value
      >= Estimate(buckets, TargetMass(buckets, q), STEPS, f).value
  {
    TargetGrows(buckets, p, q);
    hide Bisect, Estimate, TargetMass, Total, LowEdge, HighEdge;
    EstimatesOrdered(buckets, TargetMass(buckets, p), TargetMass(buckets, q), STEPS, f);
  }

  // ---- The least point exists ----

  /** No bucket is interpolated logarithmically. */
  ghost predicate IsLinear(buckets: seq<Bucket>) {
    forall i :: 0 <= i < |buckets| ==> !(buckets[i].logarithmic && (buckets[i].low > 0.0 || buckets[i].high < 0.0))
  }

  function Edges(buckets: seq<Bucket>): seq<real> {
    if buckets == [] then []
    else Edges(buckets[..|buckets| - 1]) + [buckets[|buckets| - 1].low, buckets[|buckets| - 1].high]
  }

  /** No edge lies strictly between. */
  predicate IsBare(edges: seq<real>, c: real, d: real) {
    forall i :: 0 <= i < |edges| ==> edges[i] <= c || edges[i] >= d
  }

  /** How fast one bucket's mass grows right of `c`. */
  function Slope(b: Bucket, c: real): real {
    if b.low <= c < b.high then b.count / (b.high - b.low) else 0.0
  }

  function Slopes(buckets: seq<Bucket>, c: real): real {
    if buckets == [] then 0.0 else Slopes(buckets[..|buckets| - 1], c) + Slope(buckets[|buckets| - 1], c)
  }

  lemma PortionIsAffine(count: real, low: real, width: real, c: real, x: real)
    requires width > 0.0
    ensures Portion(count, (x - low) / width) == Portion(count, (c - low) / width) + Portion(count / width, x - c)
  {
    var share, start := (x - low) / width, (c - low) / width;
    assert share - start == (x - c) / width;
    assert count * share - count * start == count * (share - start);
    QuotientMoves(count, x - c, width);
  }

  lemma QuotientMoves(a: real, b: real, w: real)
    requires w > 0.0
    ensures a * (b / w) == (a / w) * b
  {
  }

  lemma MassIsAffine(b: Bucket, c: real, d: real, x: real, f: Interpolation)
    requires IsLinear([b]) && b.low <= b.high && c <= x < d && IsBare([b.low, b.high], c, d)
    ensures Mass(b, x, f) == Mass(b, c, f) + Portion(Slope(b, c), x - c)
  {
    assert [b][0] == b && [b.low, b.high][0] == b.low && [b.low, b.high][1] == b.high;
    if b.low <= c < b.high {
      PortionIsAffine(b.count, b.low, b.high - b.low, c, x);
    }
  }

  lemma PortionAdds(a: real, b: real, w: real)
    ensures Portion(a + b, w) == Portion(a, w) + Portion(b, w)
  {
  }

  /** Between neighbouring edges the distribution function is a straight line. */
  lemma {:induction false} CdfIsAffine(buckets: seq<Bucket>, c: real, d: real, x: real, f: Interpolation)
    requires IsLinear(buckets) && WellFormed(buckets) && c <= x < d && IsBare(Edges(buckets), c, d)
    ensures Cdf(buckets, x, f) == OnLine(Cdf(buckets, c, f), Slopes(buckets, c), c, x)
  {
    hide Mass, Portion, Slope;
    if buckets == [] {
      NoSlope(x - c);
    } else {
      var n := |buckets| - 1;
      var before, b, edges := Edges(buckets[..n]), buckets[n], Edges(buckets);
      assert forall i :: 0 <= i < |before| ==> edges[i] == before[i];
      assert edges[|before|] == b.low && edges[|before| + 1] == b.high;
      CdfIsAffine(buckets[..n], c, d, x, f);
      MassIsAffine(b, c, d, x, f);
      PortionAdds(Slopes(buckets[..n], c), Slope(b, c), x - c);
    }
  }

  lemma NoSlope(w: real)
    ensures Portion(0.0, w) == 0.0
  {
  }

  /** The last of these edges still below the target. */
  lemma {:induction false} LastBelow(buckets: seq<Bucket>, edges: seq<real>, target: real, f: Interpolation)
    returns (c: Option<real>)
    ensures c.Some? ==> Cdf(buckets, c.value, f) < target
    ensures forall i :: 0 <= i < |edges| && Cdf(buckets, edges[i], f) < target ==> c.Some? && edges[i] <= c.value
  {
    if edges == [] {
      c := None;
    } else {
      var n := |edges| - 1;
      c := LastBelow(buckets, edges[..n], target, f);
      assert forall i :: 0 <= i < n ==> edges[..n][i] == edges[i];
      if Cdf(buckets, edges[n], f) < target && (c.None? || c.value < edges[n]) { c := Some(edges[n]); }
    }
  }

  /** The first of these edges to reach it. */
  lemma {:induction false} FirstReaching(buckets: seq<Bucket>, edges: seq<real>, target: real, f: Interpolation)
    returns (d: Option<real>)
    ensures d.Some? ==> Cdf(buckets, d.value, f) >= target
    ensures forall i :: 0 <= i < |edges| && Cdf(buckets, edges[i], f) >= target ==> d.Some? && d.value <= edges[i]
  {
    if edges == [] {
      d := None;
    } else {
      var n := |edges| - 1;
      d := FirstReaching(buckets, edges[..n], target, f);
      assert forall i :: 0 <= i < n ==> edges[..n][i] == edges[i];
      if Cdf(buckets, edges[n], f) >= target && (d.None? || edges[n] < d.value) { d := Some(edges[n]); }
    }
  }

  lemma {:induction false} OuterEdges(buckets: seq<Bucket>) returns (i: nat, j: nat)
    requires buckets != []
    ensures i < |Edges(buckets)| && Edges(buckets)[i] == LowEdge(buckets)
    ensures j < |Edges(buckets)| && Edges(buckets)[j] == HighEdge(buckets)
  {
    var n := |buckets| - 1;
    var before, edges := Edges(buckets[..n]), Edges(buckets);
    assert edges[|before|] == buckets[n].low && edges[|before| + 1] == buckets[n].high;
    i, j := |before|, |before| + 1;
    if n > 0 {
      var k, m := OuterEdges(buckets[..n]);
      assert edges[k] == before[k] && edges[m] == before[m];
      if !(buckets[n].low < LowEdge(buckets[..n])) { i := k; }
      if !(buckets[n].high > HighEdge(buckets[..n])) { j := m; }
    }
  }

  function OnLine(start: real, slope: real, c: real, x: real): real { start + Portion(slope, x - c) }

  /** On a line from below a target, the first point to reach it, or the end. */
  lemma LineReaches(start: real, slope: real, c: real, d: real, target: real) returns (x: real)
    requires start < target && slope >= 0.0 && c < d
    ensures c < x <= d
    ensures x < d ==> OnLine(start, slope, c, x) == target
    ensures forall y :: c <= y < x ==> OnLine(start, slope, c, y) < target
  {
    var gap := target - start;
    if slope > 0.0 && gap / slope < d - c {
      x := c + gap / slope;
      assert Portion(slope, gap / slope) == gap;
    } else {
      x := d;
    }
    forall y | c <= y < x ensures OnLine(start, slope, c, y) < target {
      if slope > 0.0 {
        assert y - c < gap / slope;
        StrictlyScaled(slope, y - c, gap / slope);
        assert Portion(slope, gap / slope) == gap;
      }
    }
  }

  lemma StrictlyScaled(c: real, a: real, b: real)
    requires c > 0.0 && a < b
    ensures Portion(c, a) < Portion(c, b)
  {
    assert c * (b - a) > 0.0;
  }

  lemma {:induction false} SlopesAreNatural(buckets: seq<Bucket>, c: real)
    requires WellFormed(buckets)
    ensures Slopes(buckets, c) >= 0.0
  {
    if buckets != [] {
      SlopesAreNatural(buckets[..|buckets| - 1], c);
      var b := buckets[|buckets| - 1];
      if b.low <= c < b.high { assert b.count / (b.high - b.low) >= 0.0; }
    }
  }

  /** Between the last edge below the target and the first to reach it lies the least point reaching it. */
  lemma LeastBetween(buckets: seq<Bucket>, c: real, d: real, target: real, f: Interpolation) returns (x: real)
    requires IsInterpolation(f) && IsLinear(buckets) && WellFormed(buckets) && IsBare(Edges(buckets), c, d) && c < d
    requires Cdf(buckets, c, f) < target <= Cdf(buckets, d, f)
    ensures IsLeastReaching(buckets, target, x, f)
  {
    hide Cdf, Portion, Edges, Slopes, IsBare, IsLinear;
    var start, slope := Cdf(buckets, c, f), Slopes(buckets, c);
    SlopesAreNatural(buckets, c);
    x := LineReaches(start, slope, c, d, target);
    if x < d { CdfIsAffine(buckets, c, d, x, f); }
    forall y | y < x ensures Cdf(buckets, y, f) < target {
      if y <= c { CdfGrows(buckets, y, c, f); } else { CdfIsAffine(buckets, c, d, y, f); }
    }
  }

  /** Without logarithmic buckets the least point reaching a target mass always exists. */
  lemma LeastPointExists(buckets: seq<Bucket>, target: real, f: Interpolation) returns (x: real)
    requires IsInterpolation(f) && IsLinear(buckets) && WellFormed(buckets) && buckets != [] &&
      0.0 < target <= Total(buckets)
    ensures IsLeastReaching(buckets, target, x, f)
  {
    hide Cdf, Edges, Total, LowEdge, HighEdge;
    var edges := Edges(buckets);
    var i, j := OuterEdges(buckets);
    TopReachesTotal(buckets, f);
    var c := LastBelow(buckets, edges, target, f);
    var d := FirstReaching(buckets, edges, target, f);
    assert d.Some? by { assert Cdf(buckets, edges[j], f) >= target; }
    if c.None? {
      x := LowEdge(buckets);
      assert Cdf(buckets, edges[i], f) >= target;
      EdgesBound(buckets);
      forall y | y < x ensures Cdf(buckets, y, f) < target {
        CdfAtEdges(buckets, x, HighEdge(buckets), y, f);
      }
    } else {
      if d.value <= c.value { CdfGrows(buckets, d.value, c.value, f); }
      x := LeastBetween(buckets, c.value, d.value, target, f);
    }
  }

  /** So without logarithmic buckets the estimate's error is bounded with nothing assumed of the data. */
  lemma LinearQuantileError(buckets: seq<Bucket>, q: real, f: Interpolation) returns (x: real)
    requires IsInterpolation(f) && IsLinear(buckets) && WellFormed(buckets) && Total(buckets) > 0.0 && 0.0 < q <= 1.0
    ensures buckets != [] && Estimate(buckets, TargetMass(buckets, q), STEPS, f).Some?
    ensures IsLeastReaching(buckets, TargetMass(buckets, q), x, f)
    ensures IsWithin(Estimate(buckets, TargetMass(buckets, q), STEPS, f).value, x, 81,
                     HighEdge(buckets) - LowEdge(buckets))
  {
    assert buckets != [];
    hide Bisect, IsWithin, Estimate, TargetMass, Total, IsLeastReaching, IsLinear, IsInterpolation, WellFormed;
    TargetReached(buckets, q);
    x := LeastPointExists(buckets, TargetMass(buckets, q), f);
    QuantileError(buckets, q, x, f);
  }
}
