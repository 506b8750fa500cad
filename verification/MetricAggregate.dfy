// Facet aggregation: per-series buckets, summed into groups; what coarser groups and whole windows add up to.
module MetricAggregate {
  import opened Order
  import opened Rows
  import opened MetricDerivation

  /** One derived observation inside the window; absent columns are SQL NULL. */
  datatype Sample = Sample(series: Hash, ts: Time, value: Option<real>, count: Option<real>, sum: Option<real>)

  function ColumnOf(x: Sample, c: Column): Option<real> {
    match c case ValueColumn => x.value case CountColumn => x.count case SumColumn => x.sum
  }

  // ---- SQL sums over a list of groups ----

  /** `sum(f)` over a list: NULLs are skipped, and the sum of nothing is NULL. */
  function ListSum<T>(xs: seq<T>, f: T -> Option<real>): Option<real> {
    if xs == [] then None else Plus(ListSum(xs[..|xs| - 1], f), f(xs[|xs| - 1]))
  }

  ghost predicate Distinct<T>(xs: seq<T>) {
    forall i, j :: 0 <= i < j < |xs| ==> xs[i] != xs[j]
  }

  lemma PlusSwaps(a: Option<real>, b: Option<real>, c: Option<real>)
    ensures Plus(Plus(a, b), c) == Plus(Plus(a, c), b) == Plus(a, Plus(b, c))
    ensures Plus(a, None) == a
  {
  }

  lemma {:induction false} ListSumSame<T>(xs: seq<T>, f: T -> Option<real>, g: T -> Option<real>)
    requires forall i :: 0 <= i < |xs| ==> f(xs[i]) == g(xs[i])
    ensures ListSum(xs, f) == ListSum(xs, g)
  {
    if xs != [] { ListSumSame(xs[..|xs| - 1], f, g); }
  }

  /** Adding a value to one entry of a list without repeats adds it to the sum once. */
  lemma {:induction false} ListSumGains<T>(xs: seq<T>, f: T -> Option<real>, g: T -> Option<real>, h: T,
                                           v: Option<real>)
    requires Distinct(xs)
    requires forall i :: 0 <= i < |xs| ==> g(xs[i]) == if xs[i] == h then Plus(f(xs[i]), v) else f(xs[i])
    ensures ListSum(xs, g) == if h in xs then Plus(ListSum(xs, f), v) else ListSum(xs, f)
  {
    if xs != [] {
      var n := |xs| - 1;
      ListSumGains(xs[..n], f, g, h, v);
      PlusSwaps(ListSum(xs[..n], f), f(xs[n]), v);
      if xs[n] == h {
        ListSumSame(xs[..n], f, g);
      } else {
        assert h in xs <==> h in xs[..n];
      }
    }
  }

  lemma {:induction false} ListSumNothing<T>(xs: seq<T>, f: T -> Option<real>)
    requires forall i :: 0 <= i < |xs| ==> f(xs[i]) == None
    ensures ListSum(xs, f) == None
  {
    if xs != [] { ListSumNothing(xs[..|xs| - 1], f); }
  }

  // ---- Groups of series ----

  /** The cells of one group; the cells of other groups are left out. */
  function InGroup(groupOf: Hash -> string, g: string, cell: Hash -> Option<real>): Hash -> Option<real> {
    (s: Hash) => if groupOf(s) == g then cell(s) else None
  }

  /** The total of one group: its series' values, whatever their bucket rows are. */
  function GroupSum(series: seq<Hash>, groupOf: Hash -> string, g: string, cell: Hash -> Option<real>): Option<real> {
    ListSum(series, InGroup(groupOf, g, cell))
  }

  /** A bucket row is dropped when value, count and sum are all NULL. */
  predicate Survives(value: Option<real>, count: Option<real>, sum: Option<real>) {
    !(value.None? && count.None? && sum.None?)
  }

  /** Grouping by fewer attributes. */
  function Coarser(groupOf: Hash -> string, coarsen: string -> string): Hash -> string {
    (s: Hash) => coarsen(groupOf(s))
  }

  /** The buckets of the finer groups of `g`, those HAVING drops left out. */
  function FinerBuckets(series: seq<Hash>, groupOf: Hash -> string, coarsen: string -> string, g: string,
                        cell: Hash -> Option<real>, survives: string -> bool): string -> Option<real> {
    (f: string) => if coarsen(f) == g && survives(f) then GroupSum(series, groupOf, f, cell) else None
  }

  lemma {:induction false} CoarseIsSumOfAllFiner(series: seq<Hash>, groupOf: Hash -> string, coarsen: string -> string,
                                                 groups: seq<string>, g: string, cell: Hash -> Option<real>)
    requires Distinct(groups) && forall i :: 0 <= i < |series| ==> groupOf(series[i]) in groups
    ensures GroupSum(series, Coarser(groupOf, coarsen), g, cell) ==
            ListSum(groups, FinerBuckets(series, groupOf, coarsen, g, cell, _ => true))
  {
    var after := FinerBuckets(series, groupOf, coarsen, g, cell, _ => true);
    if series == [] {
      ListSumNothing(groups, after);
    } else {
      var n := |series| - 1;
      var s, less := series[n], series[..n];
      CoarseIsSumOfAllFiner(less, groupOf, coarsen, groups, g, cell);
      var v := if coarsen(groupOf(s)) == g then cell(s) else None;
      var before := FinerBuckets(less, groupOf, coarsen, g, cell, _ => true);
      ListSumGains(groups, before, after, groupOf(s), v);
    }
  }

  /** Every coarse group's bucket is the sum of its finer groups' surviving buckets: HAVING loses no mass. */
  lemma CoarseIsSumOfFiner(series: seq<Hash>, groupOf: Hash -> string, coarsen: string -> string, groups: seq<string>,
                           g: string, cell: Hash -> Option<real>, survives: string -> bool)
    requires Distinct(groups) && forall i :: 0 <= i < |series| ==> groupOf(series[i]) in groups
    requires forall f :: !survives(f) ==> GroupSum(series, groupOf, f, cell) == None
    ensures GroupSum(series, Coarser(groupOf, coarsen), g, cell) ==
            ListSum(groups, FinerBuckets(series, groupOf, coarsen, g, cell, survives))
  {
    CoarseIsSumOfAllFiner(series, groupOf, coarsen, groups, g, cell);
    ListSumSame(groups, FinerBuckets(series, groupOf, coarsen, g, cell, _ => true),
                FinerBuckets(series, groupOf, coarsen, g, cell, survives));
  }

  /** The groups of one bucket that HAVING keeps, from the three sums it looks at. */
  function Having(series: seq<Hash>, groupOf: Hash -> string, value: Hash -> Option<real>, count: Hash -> Option<real>,
                  sum: Hash -> Option<real>): string -> bool {
    (g: string) => Survives(GroupSum(series, groupOf, g, value), GroupSum(series, groupOf, g, count),
                            GroupSum(series, groupOf, g, sum))
  }

  /** In value, count and sum alike, a coarse group holds exactly what its finer groups hold after HAVING. */
  lemma RollUpLosesNothing(series: seq<Hash>, groupOf: Hash -> string, coarsen: string -> string, groups: seq<string>,
                           g: string,
                           value: Hash -> Option<real>, count: Hash -> Option<real>, sum: Hash -> Option<real>)
    requires Distinct(groups) && forall i :: 0 <= i < |series| ==> groupOf(series[i]) in groups
    ensures var kept := Having(series, groupOf, value, count, sum);
      && GroupSum(series, Coarser(groupOf, coarsen), g, value)
         == ListSum(groups, FinerBuckets(series, groupOf, coarsen, g, value, kept))
      && GroupSum(series, Coarser(groupOf, coarsen), g, count)
         == ListSum(groups, FinerBuckets(series, groupOf, coarsen, g, count, kept))
      && GroupSum(series, Coarser(groupOf, coarsen), g, sum)
         == ListSum(groups, FinerBuckets(series, groupOf, coarsen, g, sum, kept))
  {
    hide GroupSum;
    var kept := Having(series, groupOf, value, count, sum);
    CoarseIsSumOfFiner(series, groupOf, coarsen, groups, g, value, kept);
    CoarseIsSumOfFiner(series, groupOf, coarsen, groups, g, count, kept);
    CoarseIsSumOfFiner(series, groupOf, coarsen, groups, g, sum, kept);
  }

  // ---- Buckets of one series ----

  /** Does a sample fall into the bucket of one series? */
  predicate InCell(x: Sample, s: Hash, b: Time, bucketOf: Time -> Time) { x.series == s && bucketOf(x.ts) == b }

  /** `sum(c)` over the samples of one series in one bucket. */
  function CellSum(xs: seq<Sample>, s: Hash, b: Time, bucketOf: Time -> Time, c: Column): Option<real> {
    if xs == [] then None
    else
      var x := xs[|xs| - 1];
      Plus(CellSum(xs[..|xs| - 1], s, b, bucketOf, c), if InCell(x, s, b, bucketOf) then ColumnOf(x, c) else None)
  }

  /** The number of values `avg` divides by. */
  function CellCount(xs: seq<Sample>, s: Hash, b: Time, bucketOf: Time -> Time): nat {
    if xs == [] then 0
    else
      var x := xs[|xs| - 1];
      CellCount(xs[..|xs| - 1], s, b, bucketOf) + if InCell(x, s, b, bucketOf) && x.value.Some? then 1 else 0
  }

  /** The per-series row's value: a Gauge is averaged over its samples, everything else summed. */
  function CellValue(xs: seq<Sample>, t: MetricType, s: Hash, b: Time, bucketOf: Time -> Time): Option<real> {
    var total, n := CellSum(xs, s, b, bucketOf, ValueColumn), CellCount(xs, s, b, bucketOf);
    if !t.Gauge? then total else if total.None? || n == 0 then None else Some(total.value / n as real)
  }

  function CellValues(xs: seq<Sample>, t: MetricType, b: Time, bucketOf: Time -> Time): Hash -> Option<real> {
    (s: Hash) => CellValue(xs, t, s, b, bucketOf)
  }

  /** The average exists exactly when the sum does. */
  lemma {:induction false} CountedWhenSummed(xs: seq<Sample>, s: Hash, b: Time, bucketOf: Time -> Time)
    ensures CellSum(xs, s, b, bucketOf, ValueColumn).Some? <==> CellCount(xs, s, b, bucketOf) > 0
  {
    if xs != [] { CountedWhenSummed(xs[..|xs| - 1], s, b, bucketOf); }
  }

  // ---- A whole window ----

  function Cells(xs: seq<Sample>, b: Time, bucketOf: Time -> Time, c: Column): Hash -> Option<real> {
    (s: Hash) => CellSum(xs, s, b, bucketOf, c)
  }

  /** One group's bucket totals, as a function of the bucket. */
  function BucketTotals(xs: seq<Sample>, series: seq<Hash>, groupOf: Hash -> string, g: string,
                        bucketOf: Time -> Time, c: Column): Time -> Option<real> {
    (b: Time) => GroupSum(series, groupOf, g, Cells(xs, b, bucketOf, c))
  }

  /** The sum of a group's per-series deltas over the window, without any bucketing. */
  function GroupTotal(xs: seq<Sample>, groupOf: Hash -> string, g: string, c: Column): Option<real> {
    if xs == [] then None
    else
      var x := xs[|xs| - 1];
      Plus(GroupTotal(xs[..|xs| - 1], groupOf, g, c), if groupOf(x.series) == g then ColumnOf(x, c) else None)
  }

  /** One more sample adds its delta to the one bucket of its group that it falls into. */
  lemma BucketGains(xs: seq<Sample>, series: seq<Hash>, groupOf: Hash -> string, g: string,
                    bucketOf: Time -> Time, c: Column, b: Time)
    requires xs != [] && Distinct(series) && xs[|xs| - 1].series in series
    ensures var x := xs[|xs| - 1];
      BucketTotals(xs, series, groupOf, g, bucketOf, c)(b) ==
      if b == bucketOf(x.ts)
      then Plus(BucketTotals(xs[..|xs| - 1], series, groupOf, g, bucketOf, c)(b),
                if groupOf(x.series) == g then ColumnOf(x, c) else None)
      else BucketTotals(xs[..|xs| - 1], series, groupOf, g, bucketOf, c)(b)
  {
    var x, less := xs[|xs| - 1], xs[..|xs| - 1];
    var before := InGroup(groupOf, g, Cells(less, b, bucketOf, c));
    var after := InGroup(groupOf, g, Cells(xs, b, bucketOf, c));
    if b == bucketOf(x.ts) {
      ListSumGains(series, before, after, x.series, if groupOf(x.series) == g then ColumnOf(x, c) else None);
    } else {
      ListSumSame(series, before, after);
    }
  }

  /** The buckets of a group add up to its per-series deltas: bucketing neither loses nor repeats any. */
  lemma {:induction false} BucketsConserve(xs: seq<Sample>, series: seq<Hash>, buckets: seq<Time>,
                                           groupOf: Hash -> string,
                                           g: string, bucketOf: Time -> Time, c: Column)
    requires Distinct(series) && Distinct(buckets)
    requires forall i :: 0 <= i < |xs| ==> xs[i].series in series && bucketOf(xs[i].ts) in buckets
    ensures ListSum(buckets, BucketTotals(xs, series, groupOf, g, bucketOf, c)) == GroupTotal(xs, groupOf, g, c)
  {
    var after := BucketTotals(xs, series, groupOf, g, bucketOf, c);
    if xs == [] {
      forall i | 0 <= i < |buckets| ensures after(buckets[i]) == None {
        ListSumNothing(series, InGroup(groupOf, g, Cells(xs, buckets[i], bucketOf, c)));
      }
      ListSumNothing(buckets, after);
    } else {
      var n := |xs| - 1;
      var before := BucketTotals(xs[..n], series, groupOf, g, bucketOf, c);
      BucketsConserve(xs[..n], series, buckets, groupOf, g, bucketOf, c);
      forall i | 0 <= i < |buckets|
        ensures after(buckets[i]) == if buckets[i] == bucketOf(xs[n].ts)
          then Plus(before(buckets[i]), if groupOf(xs[n].series) == g then ColumnOf(xs[n], c) else None)
          else before(buckets[i])
      {
        BucketGains(xs, series, groupOf, g, bucketOf, c, buckets[i]);
      }
      ListSumGains(buckets, before, after, bucketOf(xs[n].ts),
                   if groupOf(xs[n].series) == g then ColumnOf(xs[n], c) else None);
    }
  }

  // ---- The row a bucket emits ----

  /** The emitted value: a distribution's count-weighted mean, otherwise the sum over series. */
  function OutValue(t: MetricType, value: Option<real>, count: Option<real>, sum: Option<real>): Option<real> {
    if !IsDistribution(t) then value
    else if count.None? || count.value <= 0.0 then Some(0.0)
    else if sum.None? then None
    else Some(sum.value / count.value)
  }

  /** One row of the result; a distribution also emits its count and sum. */
  datatype AggregateRow = AggregateRow(value: Option<real>, count: Option<real>, sum: Option<real>)

  /** What the query emits for one group in one bucket, if HAVING keeps it. */
  function BucketRow(xs: seq<Sample>, t: MetricType, series: seq<Hash>, groupOf: Hash -> string, g: string, b: Time,
                     bucketOf: Time -> Time): Option<AggregateRow> {
    var value := GroupSum(series, groupOf, g, CellValues(xs, t, b, bucketOf));
    var count := GroupSum(series, groupOf, g, Cells(xs, b, bucketOf, CountColumn));
    var sum := GroupSum(series, groupOf, g, Cells(xs, b, bucketOf, SumColumn));
    if !Survives(value, count, sum) then None
    else if IsDistribution(t) then Some(AggregateRow(OutValue(t, value, count, sum), count, sum))
    else Some(AggregateRow(OutValue(t, value, count, sum), None, None))
  }

  /** The rows of the finer groups of `g`. */
  function FinerRows(xs: seq<Sample>, t: MetricType, series: seq<Hash>, groupOf: Hash -> string,
                     coarsen: string -> string,
                     g: string, b: Time, bucketOf: Time -> Time): string -> Option<AggregateRow> {
    (f: string) => if coarsen(f) == g then BucketRow(xs, t, series, groupOf, f, b, bucketOf) else None
  }

  function RowColumn(row: Option<AggregateRow>, c: Column): Option<real> {
    if row.None? then None
    else match c case ValueColumn => row.value.value case CountColumn => row.value.count case SumColumn => row.value.sum
  }

  function RowColumns<T>(rows: T -> Option<AggregateRow>, c: Column): T -> Option<real> {
    (p: T) => RowColumn(rows(p), c)
  }

  /** The columns of a row are the group's sums; HAVING drops a row only when all of them are NULL. */
  lemma RowHasSums(xs: seq<Sample>, t: MetricType, series: seq<Hash>, groupOf: Hash -> string, g: string, b: Time,
                   bucketOf: Time -> Time)
    ensures var row := BucketRow(xs, t, series, groupOf, g, b, bucketOf);
      var count := GroupSum(series, groupOf, g, Cells(xs, b, bucketOf, CountColumn));
      var sum := GroupSum(series, groupOf, g, Cells(xs, b, bucketOf, SumColumn));
      && (!IsDistribution(t) ==>
            RowColumn(row, ValueColumn) == GroupSum(series, groupOf, g, CellValues(xs, t, b, bucketOf))
            && RowColumn(row, CountColumn) == RowColumn(row, SumColumn) == None)
      && (IsDistribution(t) ==> RowColumn(row, CountColumn) == count && RowColumn(row, SumColumn) == sum)
      && (row.None? ==> count == sum == GroupSum(series, groupOf, g, CellValues(xs, t, b, bucketOf)) == None)
  {
    hide GroupSum;
  }

  /** The row of a coarse group, column by column, from the emitted rows of its finer groups. */
  lemma RowsRollUp(xs: seq<Sample>, t: MetricType, series: seq<Hash>, groupOf: Hash -> string,
                   coarsen: string -> string,
                   groups: seq<string>, g: string, b: Time, bucketOf: Time -> Time)
    requires Distinct(groups) && forall i :: 0 <= i < |series| ==> groupOf(series[i]) in groups
    ensures var row := BucketRow(xs, t, series, Coarser(groupOf, coarsen), g, b, bucketOf);
      var finer := FinerRows(xs, t, series, groupOf, coarsen, g, b, bucketOf);
      && (!IsDistribution(t) ==> RowColumn(row, ValueColumn) == ListSum(groups, RowColumns(finer, ValueColumn)))
      && RowColumn(row, CountColumn) == ListSum(groups, RowColumns(finer, CountColumn))
      && RowColumn(row, SumColumn) == ListSum(groups, RowColumns(finer, SumColumn))
  {
    hide GroupSum, ListSum, BucketRow, RowColumn, Survives, IsDistribution;
    var value := CellValues(xs, t, b, bucketOf);
    var count, sum := Cells(xs, b, bucketOf, CountColumn), Cells(xs, b, bucketOf, SumColumn);
    RowHasSums(xs, t, series, Coarser(groupOf, coarsen), g, b, bucketOf);
    if IsDistribution(t) {
      ColumnRollsUp(xs, t, series, groupOf, coarsen, groups, g, b, bucketOf, CountColumn, count);
      ColumnRollsUp(xs, t, series, groupOf, coarsen, groups, g, b, bucketOf, SumColumn, sum);
    } else {
      ColumnRollsUp(xs, t, series, groupOf, coarsen, groups, g, b, bucketOf, ValueColumn, value);
      NoDistributionColumns(xs, t, series, groupOf, coarsen, groups, g, b, bucketOf, CountColumn);
      NoDistributionColumns(xs, t, series, groupOf, coarsen, groups, g, b, bucketOf, SumColumn);
    }
  }

  lemma NoDistributionColumns(xs: seq<Sample>, t: MetricType, series: seq<Hash>, groupOf: Hash -> string,
                              coarsen: string -> string,
                              groups: seq<string>, g: string, b: Time, bucketOf: Time -> Time, c: Column)
    requires !IsDistribution(t) && !c.ValueColumn?
    ensures ListSum(groups, RowColumns(FinerRows(xs, t, series, groupOf, coarsen, g, b, bucketOf), c)) == None
  {
    hide GroupSum, ListSum;
    ListSumNothing(groups, RowColumns(FinerRows(xs, t, series, groupOf, coarsen, g, b, bucketOf), c));
  }

  /** One column that rows show as it is summed. */
  lemma ColumnRollsUp(xs: seq<Sample>, t: MetricType, series: seq<Hash>, groupOf: Hash -> string,
                      coarsen: string -> string,
                      groups: seq<string>, g: string, b: Time, bucketOf: Time -> Time, c: Column,
                      cell: Hash -> Option<real>)
    requires Distinct(groups) && forall i :: 0 <= i < |series| ==> groupOf(series[i]) in groups
    requires cell == if c.ValueColumn? then CellValues(xs, t, b, bucketOf) else Cells(xs, b, bucketOf, c)
    requires c.ValueColumn? <==> !IsDistribution(t)
    ensures GroupSum(series, Coarser(groupOf, coarsen), g, cell)
      == ListSum(groups, RowColumns(FinerRows(xs, t, series, groupOf, coarsen, g, b, bucketOf), c))
  {
    hide GroupSum, ListSum, BucketRow, Survives, IsDistribution;
    var value := CellValues(xs, t, b, bucketOf);
    var count, sum := Cells(xs, b, bucketOf, CountColumn), Cells(xs, b, bucketOf, SumColumn);
    RollUpLosesNothing(series, groupOf, coarsen, groups, g, value, count, sum);
    var finer := FinerRows(xs, t, series, groupOf, coarsen, g, b, bucketOf);
    var kept := FinerBuckets(series, groupOf, coarsen, g, cell, Having(series, groupOf, value, count, sum));
    forall f ensures kept(f) == RowColumns(finer, c)(f) {
      RowKept(xs, t, series, groupOf, f, b, bucketOf);
      RowHasSums(xs, t, series, groupOf, f, b, bucketOf);
      if coarsen(f) == g {
        var row := BucketRow(xs, t, series, groupOf, f, b, bucketOf);
        assert RowColumn(row, c) == GroupSum(series, groupOf, f, cell);
        assert kept(f) == RowColumn(row, c);
      } else {
        assert kept(f) == None && finer(f) == None;
      }
    }
    ListSumSame(groups, kept, RowColumns(finer, c));
  }

  lemma RowKept(xs: seq<Sample>, t: MetricType, series: seq<Hash>, groupOf: Hash -> string, g: string, b: Time,
                bucketOf: Time -> Time)
    ensures BucketRow(xs, t, series, groupOf, g, b, bucketOf).Some? <==>
      Having(series, groupOf, CellValues(xs, t, b, bucketOf), Cells(xs, b, bucketOf, CountColumn),
             Cells(xs, b, bucketOf, SumColumn))(g)
  {
    hide GroupSum;
  }

  // ---- Means of means ----

  function Times(a: real, b: real): real { a * b }

  /** NULL is shown as zero. */
  function OrZero(x: Option<real>): real { if x.None? then 0.0 else x.value }

  function Weighted<T>(counts: T -> Option<real>, means: T -> Option<real>): T -> Option<real> {
    (p: T) => if counts(p).Some? && means(p).Some? then Some(Times(counts(p).value, means(p).value)) else None
  }

  /** The sums of parts without observations, whose shown mean of zero hides them. */
  function IdleSums<T>(counts: T -> Option<real>, sums: T -> Option<real>): T -> Option<real> {
    (p: T) => if OrZero(counts(p)) <= 0.0 then sums(p) else None
  }

  lemma MeanTimesCount(sum: real, count: real, mean: real)
    requires count > 0.0 && mean == sum / count
    ensures Times(count, mean) == sum
  {
  }

  lemma {:induction false} PartsAddUp<T>(t: MetricType, parts: seq<T>, counts: T -> Option<real>,
                                         sums: T -> Option<real>,
                                         means: T -> Option<real>)
    requires IsDistribution(t) && forall p :: p in parts ==> OrZero(counts(p)) >= 0.0
    requires forall p :: p in parts && counts(p).Some? ==> means(p) == OutValue(t, None, counts(p), sums(p))
    ensures OrZero(ListSum(parts, counts)) >= 0.0
    ensures OrZero(ListSum(parts, counts)) == 0.0 ==> OrZero(ListSum(parts, Weighted(counts, means))) == 0.0
    ensures OrZero(ListSum(parts, sums))
      == OrZero(ListSum(parts, Weighted(counts, means))) + OrZero(ListSum(parts, IdleSums(counts, sums)))
  {
    if parts != [] {
      var n := |parts| - 1;
      var p := parts[n];
      PartsAddUp(t, parts[..n], counts, sums, means);
      assert p in parts;
      if OrZero(counts(p)) > 0.0 && sums(p).Some? { MeanTimesCount(sums(p).value, counts(p).value, means(p).value); }
    }
  }

  /**
   * The mean of everything is the mean of the parts' shown means, weighted by their counts, exactly when no
   * observations were counted at all or the parts that counted none have sums adding up to nothing.
   */
  lemma DistributionIsWeightedMean<T>(t: MetricType, parts: seq<T>, counts: T -> Option<real>, sums: T -> Option<real>,
                                      means: T -> Option<real>)
    requires IsDistribution(t) && forall p :: p in parts ==> OrZero(counts(p)) >= 0.0
    requires forall p :: p in parts && counts(p).Some? ==> means(p) == OutValue(t, None, counts(p), sums(p))
    ensures var count, sum := ListSum(parts, counts), ListSum(parts, sums);
      Times(OrZero(count), OrZero(OutValue(t, None, count, sum))) == OrZero(ListSum(parts, Weighted(counts, means)))
      <==> OrZero(count) == 0.0 || OrZero(ListSum(parts, IdleSums(counts, sums))) == 0.0
  {
    PartsAddUp(t, parts, counts, sums, means);
    var count, sum := ListSum(parts, counts), ListSum(parts, sums);
    if OrZero(count) > 0.0 {
      var mean := OrZero(OutValue(t, None, count, sum));
      assert mean == OrZero(sum) / OrZero(count);
      MeanTimesCount(OrZero(sum), OrZero(count), mean);
    } else {
      assert Times(0.0, OrZero(OutValue(t, None, count, sum))) == 0.0;
    }
  }

  /** Two parts: two observations adding up to 8, and none beside a sum of 4. */
  const IDLE_COUNTS: nat -> Option<real> := p => if p == 0 then Some(2.0) else Some(0.0)
  const IDLE_SUMS: nat -> Option<real> := p => if p == 0 then Some(8.0) else Some(4.0)

  function ShownMeans(counts: nat -> Option<real>, sums: nat -> Option<real>): nat -> Option<real> {
    (p: nat) => OutValue(Histogram, None, counts(p), sums(p))
  }

  /** Together they show a mean of 6 over two observations, while the means shown for each weigh 8. */
  lemma IdleSumParts()
    ensures var parts: seq<nat> := [0, 1];
      && OutValue(Histogram, None, ListSum(parts, IDLE_COUNTS), ListSum(parts, IDLE_SUMS)) == Some(6.0)
      && ListSum(parts, IDLE_COUNTS) == Some(2.0)
      && ListSum(parts, Weighted(IDLE_COUNTS, ShownMeans(IDLE_COUNTS, IDLE_SUMS))) == Some(8.0)
  {
    var parts: seq<nat> := [0, 1];
    assert parts[..1] == [0] && parts[..1][..0] == [];
    MeanTimesCount(8.0, 2.0, 4.0);
    assert Times(0.0, 0.0) == 0.0;
  }

  lemma {:induction false} CellSumIsNatural(xs: seq<Sample>, s: Hash, b: Time, bucketOf: Time -> Time)
    requires forall i :: 0 <= i < |xs| ==> OrZero(xs[i].count) >= 0.0
    ensures OrZero(CellSum(xs, s, b, bucketOf, CountColumn)) >= 0.0
  {
    if xs != [] { CellSumIsNatural(xs[..|xs| - 1], s, b, bucketOf); }
  }

  lemma {:induction false} ListSumIsNatural<T>(parts: seq<T>, f: T -> Option<real>)
    requires forall p :: p in parts ==> OrZero(f(p)) >= 0.0
    ensures OrZero(ListSum(parts, f)) >= 0.0
  {
    if parts != [] { ListSumIsNatural(parts[..|parts| - 1], f); }
  }

  /** A group's own mean, against the means shown for its finer groups in the same bucket. */
  lemma CoarseMeanIsWeighted(xs: seq<Sample>, t: MetricType, series: seq<Hash>, groupOf: Hash -> string,
                             coarsen: string -> string,
                             groups: seq<string>, g: string, b: Time, bucketOf: Time -> Time)
    requires IsDistribution(t) && forall i :: 0 <= i < |xs| ==> OrZero(xs[i].count) >= 0.0
    requires Distinct(groups) && forall i :: 0 <= i < |series| ==> groupOf(series[i]) in groups
    ensures var row := BucketRow(xs, t, series, Coarser(groupOf, coarsen), g, b, bucketOf);
      var finer := FinerRows(xs, t, series, groupOf, coarsen, g, b, bucketOf);
      var counts, sums := RowColumns(finer, CountColumn), RowColumns(finer, SumColumn);
      var means := RowColumns(finer, ValueColumn);
      Times(OrZero(RowColumn(row, CountColumn)), OrZero(RowColumn(row, ValueColumn)))
        == OrZero(ListSum(groups, Weighted(counts, means)))
      <==> OrZero(RowColumn(row, CountColumn)) == 0.0 || OrZero(ListSum(groups, IdleSums(counts, sums))) == 0.0
  {
    hide GroupSum, ListSum, BucketRow, Weighted, IdleSums;
    var finer := FinerRows(xs, t, series, groupOf, coarsen, g, b, bucketOf);
    var counts, sums := RowColumns(finer, CountColumn), RowColumns(finer, SumColumn);
    var means := RowColumns(finer, ValueColumn);
    forall f | f in groups
      ensures OrZero(counts(f)) >= 0.0
      ensures counts(f).Some? ==> means(f) == OutValue(t, None, counts(f), sums(f))
    {
      RowIsNatural(xs, t, series, groupOf, f, b, bucketOf);
    }
    RowsRollUp(xs, t, series, groupOf, coarsen, groups, g, b, bucketOf);
    DistributionIsWeightedMean(t, groups, counts, sums, means);
    RowIsNatural(xs, t, series, Coarser(groupOf, coarsen), g, b, bucketOf);
  }

  lemma RowIsNatural(xs: seq<Sample>, t: MetricType, series: seq<Hash>, groupOf: Hash -> string, g: string, b: Time,
                     bucketOf: Time -> Time)
    requires IsDistribution(t) && forall i :: 0 <= i < |xs| ==> OrZero(xs[i].count) >= 0.0
    ensures var row := BucketRow(xs, t, series, groupOf, g, b, bucketOf);
      && OrZero(RowColumn(row, CountColumn)) >= 0.0
      && (row.Some? ==> row.value.value == OutValue(t, None, row.value.count, row.value.sum))
  {
    var cells := InGroup(groupOf, g, Cells(xs, b, bucketOf, CountColumn));
    forall s | s in series ensures OrZero(cells(s)) >= 0.0 {
      CellSumIsNatural(xs, s, b, bucketOf);
    }
    ListSumIsNatural(series, cells);
  }
}
