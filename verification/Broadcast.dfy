// Adjacent metric commits share one read-back query, and are still announced commit by commit.
module Broadcast {
  import opened Filters
  import opened Order
  import opened Rows
  import opened MetricDerivation

  /** One (service, metric name) group. */
  datatype MetricKey = MetricKey(service: string, name: string)

  datatype CommitPoint = CommitPoint(id: string, series: Hash, ts: Time)

  /** A committed batch: its points, and the metric each of its series belongs to. */
  datatype Commit = Commit(points: seq<CommitPoint>, series: map<Hash, MetricKey>)

  datatype Group = Group(pointIds: set<string>, from: Time, to: Time)
  datatype Plan = Plan(groups: map<MetricKey, Group>, order: seq<MetricKey>)
  datatype Message = Message(key: MetricKey, points: set<DerivedPoint>)

  predicate HasKey(c: Commit, i: nat, k: MetricKey)
    requires i < |c.points|
  {
    c.points[i].series in c.series && c.series[c.points[i].series] == k
  }

  /** The metric keys of the first `n` points, in order of first appearance. */
  function KeysInOrder(c: Commit, n: nat): seq<MetricKey>
    requires n <= |c.points|
  {
    if n == 0 then []
    else
      var before := KeysInOrder(c, n - 1);
      var s := c.points[n - 1].series;
      if s !in c.series || c.series[s] in before then before else before + [c.series[s]]
  }

  function IdsOf(c: Commit, n: nat, k: MetricKey): set<string>
    requires n <= |c.points|
  {
    set i | 0 <= i < n && HasKey(c, i, k) :: c.points[i].id
  }

  /** A group's window is spanned by its points. */
  ghost predicate Spans(c: Commit, n: nat, k: MetricKey, from: Time, to: Time)
    requires n <= |c.points|
  {
    (forall i :: 0 <= i < n && HasKey(c, i, k) ==> from <= c.points[i].ts <= to) &&
    (exists i :: 0 <= i < n && HasKey(c, i, k) && c.points[i].ts == from) &&
    (exists i :: 0 <= i < n && HasKey(c, i, k) && c.points[i].ts == to)
  }

  ghost predicate IsPlan(c: Commit, n: nat, p: Plan)
    requires n <= |c.points|
  {
    p.order == KeysInOrder(c, n) &&
    (forall k :: k in p.groups <==> k in p.order) &&
    (forall k :: k in p.groups ==>
      p.groups[k].pointIds == IdsOf(c, n, k) && Spans(c, n, k, p.groups[k].from, p.groups[k].to))
  }

  lemma OtherKeysUnchanged(c: Commit, n: nat, k: MetricKey)
    requires n < |c.points| && !HasKey(c, n, k)
    ensures IdsOf(c, n + 1, k) == IdsOf(c, n, k)
    ensures forall from, to :: Spans(c, n, k, from, to) ==> Spans(c, n + 1, k, from, to)
  {
    forall from, to | Spans(c, n, k, from, to) ensures Spans(c, n + 1, k, from, to) {}
  }

  /** One more point extends its group only. */
  lemma PlanExtended(c: Commit, n: nat, before: Plan, k: MetricKey, group: Group)
    requires n < |c.points| && HasKey(c, n, k) && IsPlan(c, n, before)
    requires group.pointIds == IdsOf(c, n + 1, k) && Spans(c, n + 1, k, group.from, group.to)
    ensures IsPlan(c, n + 1,
                   Plan(before.groups[k := group], if k in before.groups then before.order else before.order + [k]))
  {
    hide Spans, IdsOf;
    forall other | other != k && other in before.groups
      ensures before.groups[other].pointIds == IdsOf(c, n + 1, other)
      ensures Spans(c, n + 1, other, before.groups[other].from, before.groups[other].to)
    {
      OtherKeysUnchanged(c, n, other);
    }
  }

  lemma PlanUnchanged(c: Commit, n: nat, before: Plan)
    requires n < |c.points| && c.points[n].series !in c.series && IsPlan(c, n, before)
    ensures IsPlan(c, n + 1, before)
  {
    hide Spans, IdsOf;
    forall other | other in before.groups
      ensures before.groups[other].pointIds == IdsOf(c, n + 1, other)
      ensures Spans(c, n + 1, other, before.groups[other].from, before.groups[other].to)
    {
      OtherKeysUnchanged(c, n, other);
    }
  }

  /** Point `i` is the first of the first `n` that belongs to this metric. */
  ghost predicate AppearsAt(c: Commit, n: nat, k: MetricKey, i: int)
    requires n <= |c.points|
  {
    0 <= i < n && HasKey(c, i, k) && forall j :: 0 <= j < i ==> !HasKey(c, j, k)
  }

  /** Each metric with a point, once, in order of its first point. */
  ghost predicate InOrderOfAppearance(c: Commit, n: nat, keys: seq<MetricKey>)
    requires n <= |c.points|
  {
    && (forall k :: k in keys <==> exists i :: AppearsAt(c, n, k, i))
    && (forall a, b, i, j :: 0 <= a < b < |keys| && AppearsAt(c, n, keys[a], i) && AppearsAt(c, n, keys[b], j) ==>
          i < j)
  }

  lemma {:induction false} KeysAppearInOrder(c: Commit, n: nat)
    requires n <= |c.points|
    ensures InOrderOfAppearance(c, n, KeysInOrder(c, n))
  {
    hide HasKey;
    if n > 0 {
      KeysAppearInOrder(c, n - 1);
      var before, s := KeysInOrder(c, n - 1), c.points[n - 1].series;
      if s !in c.series || c.series[s] in before {
        forall k, i ensures AppearsAt(c, n, k, i) <==> AppearsAt(c, n - 1, k, i) { OldKeyAppears(c, n, k, i); }
        SameAppearances(c, n - 1, n, before);
      } else {
        NewKeyAppears(c, n);
      }
    }
  }

  /** A last point of no metric, or of one already seen, is no first appearance. */
  lemma OldKeyAppears(c: Commit, n: nat, k: MetricKey, i: int)
    requires 0 < n <= |c.points| && InOrderOfAppearance(c, n - 1, KeysInOrder(c, n - 1))
    requires var s := c.points[n - 1].series; s !in c.series || c.series[s] in KeysInOrder(c, n - 1)
    ensures AppearsAt(c, n, k, i) <==> AppearsAt(c, n - 1, k, i)
  {
    var m := n - 1;
    assert HasKey(c, m, k) ==> k in KeysInOrder(c, m);
    assert k in KeysInOrder(c, m) ==> exists j :: AppearsAt(c, m, k, j);
  }

  lemma SameAppearances(c: Commit, m: nat, n: nat, keys: seq<MetricKey>)
    requires m <= n <= |c.points| && InOrderOfAppearance(c, m, keys)
    requires forall k, i :: AppearsAt(c, n, k, i) <==> AppearsAt(c, m, k, i)
    ensures InOrderOfAppearance(c, n, keys)
  {
    hide AppearsAt;
  }

  lemma NewKeyAppears(c: Commit, n: nat)
    requires 0 < n <= |c.points| && InOrderOfAppearance(c, n - 1, KeysInOrder(c, n - 1))
    requires c.points[n - 1].series in c.series && c.series[c.points[n - 1].series] !in KeysInOrder(c, n - 1)
    ensures InOrderOfAppearance(c, n, KeysInOrder(c, n))
  {
    var before, last := KeysInOrder(c, n - 1), c.series[c.points[n - 1].series];
    var keys := before + [last];
    OrderedKeyHasPoint(c, n - 1, last);
    assert AppearsAt(c, n, last, n - 1);
    forall k, i | AppearsAt(c, n, k, i) ensures if i == n - 1 then k == last else AppearsAt(c, n - 1, k, i) {}
    forall k ensures k in keys <==> exists i :: AppearsAt(c, n, k, i) {
      if k in before {
        var i :| AppearsAt(c, n - 1, k, i);
        assert AppearsAt(c, n, k, i);
      }
      if i :| AppearsAt(c, n, k, i) && i != n - 1 { assert AppearsAt(c, n - 1, k, i); }
    }
    hide HasKey, AppearsAt;
    forall a, b, i, j | 0 <= a < b < |keys| && AppearsAt(c, n, keys[a], i) && AppearsAt(c, n, keys[b], j)
      ensures i < j
    {
      AppearsBefore(c, n, keys[a], i);
      AppearsBefore(c, n, keys[b], j);
      assert keys[a] == before[a] != last;
    }
  }

  lemma AppearsBefore(c: Commit, n: nat, k: MetricKey, i: int)
    requires 0 < n <= |c.points| && AppearsAt(c, n, k, i)
    ensures i < n - 1 ==> AppearsAt(c, n - 1, k, i)
    ensures i == n - 1 ==> c.points[i].series in c.series && k == c.series[c.points[i].series]
    ensures i <= n - 1
  {
  }

  /** Groups one commit's points by metric. */
  method PrepareMetricBroadcast(c: Commit) returns (plan: Plan)
    ensures IsPlan(c, |c.points|, plan)
    ensures InOrderOfAppearance(c, |c.points|, plan.order)
  {
    KeysAppearInOrder(c, |c.points|);
    hide InOrderOfAppearance;
    OrderOfPlan(c);
    hide IsPlan, Spans, IdsOf, KeysInOrder;
    plan := Plan(map[], []);
    EmptyPlan(c);
    for i := 0 to |c.points|
      invariant IsPlan(c, i, plan)
    {
      var point := c.points[i];
      if point.series !in c.series {
        PlanUnchanged(c, i, plan);
        continue;
      }
      var key := c.series[point.series];
      var seen := key in plan.groups;
      var group := if seen then plan.groups[key] else Group({}, point.ts, point.ts);
      group := Group(group.pointIds + {point.id},
                     if point.ts < group.from then point.ts else group.from,
                     if point.ts > group.to then point.ts else group.to);
      GroupExtended(c, i, key, plan, group);
      PlanExtended(c, i, plan, key, group);
      plan := Plan(plan.groups[key := group], if seen then plan.order else plan.order + [key]);
    }
  }

  lemma OrderOfPlan(c: Commit)
    ensures forall p :: IsPlan(c, |c.points|, p) ==> p.order == KeysInOrder(c, |c.points|)
  {
  }

  lemma EmptyPlan(c: Commit)
    ensures IsPlan(c, 0, Plan(map[], []))
  {
  }

  lemma {:induction false} OrderedKeyHasPoint(c: Commit, n: nat, k: MetricKey)
    requires n <= |c.points|
    ensures k in KeysInOrder(c, n) <==> exists i :: 0 <= i < n && HasKey(c, i, k)
  {
    if n > 0 {
      OrderedKeyHasPoint(c, n - 1, k);
      if k in KeysInOrder(c, n) && k !in KeysInOrder(c, n - 1) { assert HasKey(c, n - 1, k); }
    }
  }

  lemma GroupExtended(c: Commit, n: nat, k: MetricKey, before: Plan, group: Group)
    requires n < |c.points| && HasKey(c, n, k) && IsPlan(c, n, before)
    requires var ts := c.points[n].ts;
             var prior := if k in before.groups then before.groups[k] else Group({}, ts, ts);
             group == Group(prior.pointIds + {c.points[n].id}, if ts < prior.from then ts else prior.from,
                            if ts > prior.to then ts else prior.to)
    ensures group.pointIds == IdsOf(c, n + 1, k) && Spans(c, n + 1, k, group.from, group.to)
  {
    OrderedKeyHasPoint(c, n, k);
    assert HasKey(c, n, k) && c.points[n].ts == c.points[n].ts;
    if k in before.groups {
      var g := before.groups[k];
      assert Spans(c, n, k, g.from, g.to);
      var i :| 0 <= i < n && HasKey(c, i, k) && c.points[i].ts == g.from;
      var j :| 0 <= j < n && HasKey(c, j, k) && c.points[j].ts == g.to;
    }
  }

  // ---- The shared query ----

  /** The stored rows of one metric. */
  function MetricRows(rows: set<Row>, metricOf: map<Hash, MetricKey>, k: MetricKey): set<Row> {
    set r | r in rows && r.series in metricOf && metricOf[r.series] == k
  }

  datatype Range = Range(from: Time, to: Time)

  /** The window a query asks for; the upper end is exclusive. */
  ghost function SelectedIn(rows: set<Row>, w: Range): set<Row> { Selected(rows, w.from, w.to + 1) }

  /** What one window of the batch query returns for a metric. */
  ghost function QueryAnswer(rows: set<Row>, metricOf: map<Hash, MetricKey>, k: MetricKey,
                             w: Range): set<DerivedPoint> {
    var mine := MetricRows(rows, metricOf, k);
    set r | r in SelectedIn(mine, w) :: Derived(SelectedIn(mine, w), r)
  }

  /** The rows of one group a query over the whole history would show. */
  ghost function AnnouncedRows(rows: set<Row>, metricOf: map<Hash, MetricKey>, k: MetricKey,
                               ids: set<string>): set<Row> {
    var mine := MetricRows(rows, metricOf, k);
    set r | r in mine && r.id in ids && HasDelta(Derived(mine, r))
  }

  /** Those rows as derived in one window: as over the whole history, with totals that start at the window. */
  ghost function Announced(rows: set<Row>, metricOf: map<Hash, MetricKey>, k: MetricKey, ids: set<string>,
                           w: Range): set<DerivedPoint> {
    set r | r in AnnouncedRows(rows, metricOf, k, ids) :: Derived(SelectedIn(MetricRows(rows, metricOf, k), w), r)
  }

  function Shown(answer: set<DerivedPoint>, ids: set<string>): set<DerivedPoint> {
    set p | p in answer && HasDelta(p) && p.id in ids
  }

  /** The commit's points are stored, under unique ids. */
  ghost predicate IsStored(c: Commit, rows: set<Row>, metricOf: map<Hash, MetricKey>) {
    && (forall q, r :: q in rows && r in rows && q.id == r.id ==> q == r)
    && (forall s :: s in c.series ==> s in metricOf && metricOf[s] == c.series[s])
    && (forall i :: 0 <= i < |c.points| ==>
          exists r :: r in rows && r.id == c.points[i].id && r.series == c.points[i].series && r.ts == c.points[i].ts)
  }

  /** The window holds every point of a commit's group. */
  ghost predicate HoldsGroup(c: Commit, k: MetricKey, w: Range) {
    forall i :: 0 <= i < |c.points| && HasKey(c, i, k) ==> w.from <= c.points[i].ts <= w.to
  }

  lemma GroupInWindow(c: Commit, rows: set<Row>, metricOf: map<Hash, MetricKey>, k: MetricKey, w: Range, r: Row)
    requires IsStored(c, rows, metricOf) && HoldsGroup(c, k, w)
    requires r in MetricRows(rows, metricOf, k) && r.id in IdsOf(c, |c.points|, k)
    ensures r in Window(MetricRows(rows, metricOf, k), w.from, w.to + 1)
  {
    var i :| 0 <= i < |c.points| && HasKey(c, i, k) && c.points[i].id == r.id;
    var q :| q in rows && q.id == c.points[i].id && q.series == c.points[i].series && q.ts == c.points[i].ts;
  }

  lemma DerivedNamesItsRow(rows: set<Row>, r: Row)
    ensures Derived(rows, r).id == r.id && HasDelta(Stable(rows, r)) == HasDelta(Derived(rows, r))
  {
  }

  /** Any window that covers a commit's group shows exactly the group's rows: as over the history, no predecessor. */
  lemma WidenedWindowShowsSame(c: Commit, rows: set<Row>, metricOf: map<Hash, MetricKey>, k: MetricKey, w: Range)
    requires WellFormed(rows) && IsStored(c, rows, metricOf) && HoldsGroup(c, k, w)
    ensures var ids := IdsOf(c, |c.points|, k);
      Shown(QueryAnswer(rows, metricOf, k, w), ids) == Announced(rows, metricOf, k, ids, w)
    ensures forall r :: r in AnnouncedRows(rows, metricOf, k, IdsOf(c, |c.points|, k)) ==>
      var mine := MetricRows(rows, metricOf, k); Stable(SelectedIn(mine, w), r) == Stable(mine, r)
  {
    var mine, ids := MetricRows(rows, metricOf, k), IdsOf(c, |c.points|, k);
    var selected := SelectedIn(mine, w);
    assert WellFormed(mine);
    forall r | r in mine && r.id in ids
      ensures r in selected && Stable(selected, r) == Stable(mine, r)
      ensures HasDelta(Derived(selected, r)) == HasDelta(Derived(mine, r))
    {
      GroupInWindow(c, rows, metricOf, k, w, r);
      WindowDerivesAsHistory(mine, w.from, w.to + 1, r);
      DerivedNamesItsRow(selected, r);
      DerivedNamesItsRow(mine, r);
    }
    hide Derived, Stable, HasDelta, WellFormed, IdsOf, IsStored, HoldsGroup;
    ShownIs(selected, mine, ids);
  }

  lemma ShownIs(selected: set<Row>, mine: set<Row>, ids: set<string>)
    requires selected <= mine
    requires forall r :: r in mine && r.id in ids ==>
      r in selected && HasDelta(Derived(selected, r)) == HasDelta(Derived(mine, r))
    ensures Shown(set r | r in selected :: Derived(selected, r), ids)
      == set r | r in (set r | r in mine && r.id in ids && HasDelta(Derived(mine, r))) :: Derived(selected, r)
  {
    forall r ensures Derived(selected, r).id == r.id { DerivedNamesItsRow(selected, r); }
    hide Derived, HasDelta;
  }

  // ---- The deliveries ----

  ghost predicate Covers(ranges: map<MetricKey, Range>, p: Plan) {
    forall k :: k in p.groups ==>
      k in ranges && ranges[k].from <= p.groups[k].from && p.groups[k].to <= ranges[k].to
  }

  /** `wide` covers everything `narrow` does. */
  ghost predicate Wider(narrow: map<MetricKey, Range>, wide: map<MetricKey, Range>) {
    forall k :: k in narrow ==> k in wide && wide[k].from <= narrow[k].from && narrow[k].to <= wide[k].to
  }

  /** Each end of a range is an end of the old range or of the plan's. */
  ghost predicate EndsAreKept(ranges: map<MetricKey, Range>, plan: Plan, wide: map<MetricKey, Range>) {
    forall k :: k in wide ==>
      && ((k in ranges && wide[k].from == ranges[k].from) || (k in plan.groups && wide[k].from == plan.groups[k].from))
      && ((k in ranges && wide[k].to == ranges[k].to) || (k in plan.groups && wide[k].to == plan.groups[k].to))
  }

  /** Widens the range of every metric of one plan. */
  method WidenRanges(ranges: map<MetricKey, Range>, plan: Plan) returns (wide: map<MetricKey, Range>)
    requires forall k :: k in plan.groups <==> k in plan.order
    ensures Wider(ranges, wide) && Covers(wide, plan) && EndsAreKept(ranges, plan, wide)
  {
    wide := ranges;
    for i := 0 to |plan.order|
      invariant Wider(ranges, wide) && EndsAreKept(ranges, plan, wide)
      invariant forall j :: 0 <= j < i ==>
        plan.order[j] in wide && wide[plan.order[j]].from <= plan.groups[plan.order[j]].from &&
        plan.groups[plan.order[j]].to <= wide[plan.order[j]].to
    {
      var key := plan.order[i];
      var group := plan.groups[key];
      if key !in wide {
        wide := wide[key := Range(group.from, group.to)];
        continue;
      }
      var window := wide[key];
      if group.from < window.from { window := window.(from := group.from); }
      if group.to > window.to { window := window.(to := group.to); }
      wide := wide[key := window];
    }
  }

  function RangeOf(ranges: map<MetricKey, Range>, k: MetricKey): Range {
    if k in ranges then ranges[k] else Range(0, 0)
  }

  /** What one commit announces: a message per metric with points to show, in order of first appearance. */
  ghost function CommitMessages(rows: set<Row>, metricOf: map<Hash, MetricKey>, ranges: map<MetricKey, Range>,
                                c: Commit,
                                keys: seq<MetricKey>): seq<Message> {
    if keys == [] then []
    else
      var n := |keys| - 1;
      var points := Announced(rows, metricOf, keys[n], IdsOf(c, |c.points|, keys[n]), RangeOf(ranges, keys[n]));
      CommitMessages(rows, metricOf, ranges, c, keys[..n]) + if points == {} then [] else [Message(keys[n], points)]
  }

  /** The messages of all commits, in commit order, from windows that are the same for all of them. */
  ghost function AllMessages(rows: set<Row>, metricOf: map<Hash, MetricKey>, ranges: map<MetricKey, Range>,
                             commits: seq<Commit>): seq<Message> {
    if commits == [] then []
    else
      var c := commits[|commits| - 1];
      AllMessages(rows, metricOf, ranges, commits[..|commits| - 1]) +
      CommitMessages(rows, metricOf, ranges, c, KeysInOrder(c, |c.points|))
  }

  /** The points read back for a metric hold what the commit announces of it. */
  ghost predicate IsReadBack(c: Commit, k: MetricKey, derived: map<MetricKey, set<DerivedPoint>>, rows: set<Row>,
                             metricOf: map<Hash, MetricKey>, ranges: map<MetricKey, Range>) {
    var ids := IdsOf(c, |c.points|, k);
    k in derived && Shown(derived[k], ids) == Announced(rows, metricOf, k, ids, RangeOf(ranges, k))
  }

  /** Emits one plan's messages from the shared read-back. */
  method BroadcastMetricPlan(c: Commit, plan: Plan, derived: map<MetricKey, set<DerivedPoint>>, ghost rows: set<Row>,
                             ghost metricOf: map<Hash, MetricKey>, ghost ranges: map<MetricKey, Range>)
    returns (messages: seq<Message>)
    requires IsPlan(c, |c.points|, plan)
    requires forall k :: k in plan.order ==> IsReadBack(c, k, derived, rows, metricOf, ranges)
    ensures messages == CommitMessages(rows, metricOf, ranges, c, KeysInOrder(c, |c.points|))
  {
    hide IdsOf, Announced, Shown, KeysInOrder, Spans, RangeOf;
    messages := [];
    for i := 0 to |plan.order|
      invariant messages == CommitMessages(rows, metricOf, ranges, c, plan.order[..i])
    {
      var key := plan.order[i];
      assert plan.order[..i + 1][..i] == plan.order[..i];
      assert key in plan.order && key in plan.groups;
      var dataPoints := Shown(derived[key], plan.groups[key].pointIds);
      if dataPoints == {} { continue; }
      messages := messages + [Message(key, dataPoints)];
    }
    assert plan.order[..|plan.order|] == plan.order;
  }

  lemma CoveredGroupShows(c: Commit, plan: Plan, ranges: map<MetricKey, Range>,
                          derived: map<MetricKey, set<DerivedPoint>>,
                          rows: set<Row>, metricOf: map<Hash, MetricKey>, k: MetricKey)
    requires WellFormed(rows) && IsStored(c, rows, metricOf)
    requires IsPlan(c, |c.points|, plan) && Covers(ranges, plan) && k in plan.order
    requires forall k :: k in ranges ==> k in derived && derived[k] == QueryAnswer(rows, metricOf, k, ranges[k])
    ensures IsReadBack(c, k, derived, rows, metricOf, ranges)
  {
    assert k in plan.groups && Spans(c, |c.points|, k, plan.groups[k].from, plan.groups[k].to);
    hide WellFormed, IsStored, QueryAnswer, Shown, Announced, IdsOf;
    assert HoldsGroup(c, k, ranges[k]);
    WidenedWindowShowsSame(c, rows, metricOf, k, ranges[k]);
  }

  /** Some point of the metric among the commits was taken at this time. */
  ghost predicate IsTaken(commits: seq<Commit>, k: MetricKey, ts: Time) {
    exists j, i :: 0 <= j < |commits| && 0 <= i < |commits[j].points| &&
      HasKey(commits[j], i, k) && commits[j].points[i].ts == ts
  }

  ghost predicate AreTight(commits: seq<Commit>, ranges: map<MetricKey, Range>) {
    forall k :: k in ranges ==> IsTaken(commits, k, ranges[k].from) && IsTaken(commits, k, ranges[k].to)
  }

  lemma TakenAmongMore(commits: seq<Commit>, c: Commit, k: MetricKey, ts: Time)
    ensures IsTaken(commits, k, ts) ==> IsTaken(commits + [c], k, ts)
  {
    if IsTaken(commits, k, ts) {
      var j, i :| 0 <= j < |commits| && 0 <= i < |commits[j].points| &&
        HasKey(commits[j], i, k) && commits[j].points[i].ts == ts;
      assert (commits + [c])[j] == commits[j];
    }
  }

  lemma TakenInLast(commits: seq<Commit>, c: Commit, k: MetricKey, i: nat)
    requires i < |c.points| && HasKey(c, i, k)
    ensures IsTaken(commits + [c], k, c.points[i].ts)
  {
    assert (commits + [c])[|commits|] == c;
  }

  /** Widening by one plan's groups keeps every end a time of some point. */
  lemma TightStep(commits: seq<Commit>, ranges: map<MetricKey, Range>, c: Commit, plan: Plan,
                  wide: map<MetricKey, Range>)
    requires AreTight(commits, ranges) && IsPlan(c, |c.points|, plan) && EndsAreKept(ranges, plan, wide)
    ensures AreTight(commits + [c], wide)
  {
    hide IsTaken, IdsOf, KeysInOrder;
    forall k | k in wide ensures IsTaken(commits + [c], k, wide[k].from) && IsTaken(commits + [c], k, wide[k].to) {
      TakenAmongMore(commits, c, k, wide[k].from);
      TakenAmongMore(commits, c, k, wide[k].to);
      if k in plan.groups {
        var i :| 0 <= i < |c.points| && HasKey(c, i, k) && c.points[i].ts == plan.groups[k].from;
        var j :| 0 <= j < |c.points| && HasKey(c, j, k) && c.points[j].ts == plan.groups[k].to;
        TakenInLast(commits, c, k, i);
        TakenInLast(commits, c, k, j);
      }
    }
  }

  /** Collects the plans of the non-empty commits and one window per metric that covers them all. */
  method CollectPlans(commits: seq<Commit>)
    returns (kept: seq<Commit>, plans: seq<Plan>, ranges: map<MetricKey, Range>)
    ensures |kept| == |plans| && forall i :: 0 <= i < |kept| ==> kept[i] in commits
    ensures forall i :: 0 <= i < |plans| ==> IsPlan(kept[i], |kept[i].points|, plans[i]) && Covers(ranges, plans[i])
    ensures kept == NonEmpty(commits) && AreTight(kept, ranges)
  {
    hide IsPlan, IsTaken, EndsAreKept;
    kept, plans, ranges := [], [], map[];
    for i := 0 to |commits|
      invariant |kept| == |plans| && forall j :: 0 <= j < |kept| ==> kept[j] in commits
      invariant forall j :: 0 <= j < |plans| ==> IsPlan(kept[j], |kept[j].points|, plans[j]) && Covers(ranges, plans[j])
      invariant kept == NonEmpty(commits[..i]) && AreTight(kept, ranges)
    {
      assert commits[..i + 1][..i] == commits[..i];
      if commits[i].points == [] { continue; }
      var plan := PrepareMetricBroadcast(commits[i]);
      PlanHasOrder(commits[i], plan);
      var wide := WidenRanges(ranges, plan);
      TightStep(kept, ranges, commits[i], plan, wide);
      ranges := wide;
      kept, plans := kept + [commits[i]], plans + [plan];
    }
    assert commits[..|commits|] == commits;
  }

  function NonEmpty(commits: seq<Commit>): seq<Commit> {
    if commits == [] then []
    else
      var c := commits[|commits| - 1];
      NonEmpty(commits[..|commits| - 1]) + if c.points == [] then [] else [c]
  }

  lemma {:induction false} EmptyCommitsSayNothing(rows: set<Row>, metricOf: map<Hash, MetricKey>,
          ranges: map<MetricKey, Range>,
                                                 commits: seq<Commit>)
    ensures AllMessages(rows, metricOf, ranges, NonEmpty(commits)) == AllMessages(rows, metricOf, ranges, commits)
  {
    hide CommitMessages, KeysInOrder;
    if commits != [] {
      var n := |commits| - 1;
      EmptyCommitsSayNothing(rows, metricOf, ranges, commits[..n]);
      var before := NonEmpty(commits[..n]);
      if commits[n].points == [] {
        NothingToSay(rows, metricOf, ranges, commits[n]);
        assert before + [] == before;
      } else {
        assert (before + [commits[n]])[..|before|] == before;
      }
    }
  }

  lemma NothingToSay(rows: set<Row>, metricOf: map<Hash, MetricKey>, ranges: map<MetricKey, Range>, c: Commit)
    requires c.points == []
    ensures CommitMessages(rows, metricOf, ranges, c, KeysInOrder(c, |c.points|)) == []
  {
  }

  lemma PlanHasOrder(c: Commit, plan: Plan)
    requires IsPlan(c, |c.points|, plan)
    ensures forall k :: k in plan.groups <==> k in plan.order
  {
  }

  /** One window per metric, spanned by the points of the commits. */
  ghost predicate IsHull(commits: seq<Commit>, ranges: map<MetricKey, Range>) {
    && AreTight(commits, ranges)
    && forall c, k :: c in commits ==>
         HoldsGroup(c, k, RangeOf(ranges, k)) && (k in KeysInOrder(c, |c.points|) ==> k in ranges)
  }

  /** Announces adjacent commits through one widened window per metric. */
  method BroadcastMetricDeliveries(commits: seq<Commit>, query: (MetricKey, Range) -> set<DerivedPoint>,
                                   ghost rows: set<Row>, ghost metricOf: map<Hash, MetricKey>)
    returns (messages: seq<Message>, ranges: map<MetricKey, Range>)
    requires WellFormed(rows) && forall c :: c in commits ==> IsStored(c, rows, metricOf)
    requires forall k, w :: query(k, w) == QueryAnswer(rows, metricOf, k, w)
    ensures messages == AllMessages(rows, metricOf, ranges, commits)
    ensures IsHull(commits, ranges)
  {
    hide IsPlan, IsStored, WellFormed, QueryAnswer, Announced, Covers, CommitMessages, RangeOf, HoldsGroup, AreTight,
      IsReadBack, IsHull, KeysInOrder;
    var kept, plans;
    kept, plans, ranges := CollectPlans(commits);
    var derived := map k | k in ranges :: query(k, ranges[k]);
    messages := [];
    for i := 0 to |plans|
      invariant messages == AllMessages(rows, metricOf, ranges, kept[..i])
    {
      assert kept[i] in commits;
      forall k | k in plans[i].order
        ensures IsReadBack(kept[i], k, derived, rows, metricOf, ranges)
      {
        CoveredGroupShows(kept[i], plans[i], ranges, derived, rows, metricOf, k);
      }
      var emitted := BroadcastMetricPlan(kept[i], plans[i], derived, rows, metricOf, ranges);
      assert kept[..i + 1][..i] == kept[..i];
      messages := messages + emitted;
    }
    assert kept[..|kept|] == kept;
    EmptyCommitsSayNothing(rows, metricOf, ranges, commits);
    KeptHull(commits, kept, plans, ranges);
  }

  lemma {:induction false} NonEmptyKept(commits: seq<Commit>, c: Commit)
    requires c in commits && c.points != []
    ensures c in NonEmpty(commits)
  {
    var n := |commits| - 1;
    if commits[n] != c {
      assert c in commits[..n];
      NonEmptyKept(commits[..n], c);
    }
  }

  lemma KeptAreTight(commits: seq<Commit>, kept: seq<Commit>, ranges: map<MetricKey, Range>)
    requires AreTight(kept, ranges) && forall j :: 0 <= j < |kept| ==> kept[j] in commits
    ensures AreTight(commits, ranges)
  {
    forall k, ts | IsTaken(kept, k, ts) ensures IsTaken(commits, k, ts) {
      var j, i :| 0 <= j < |kept| && 0 <= i < |kept[j].points| && HasKey(kept[j], i, k) && kept[j].points[i].ts == ts;
      var n :| 0 <= n < |commits| && commits[n] == kept[j];
    }
  }

  lemma CommitIsHeld(commits: seq<Commit>, kept: seq<Commit>, plans: seq<Plan>, ranges: map<MetricKey, Range>,
                     c: Commit, k: MetricKey)
    requires kept == NonEmpty(commits) && |kept| == |plans| && c in commits
    requires forall i :: 0 <= i < |plans| ==> IsPlan(kept[i], |kept[i].points|, plans[i]) && Covers(ranges, plans[i])
    ensures HoldsGroup(c, k, RangeOf(ranges, k)) && (k in KeysInOrder(c, |c.points|) ==> k in ranges)
  {
    if c.points != [] {
      NonEmptyKept(commits, c);
      var i :| 0 <= i < |kept| && kept[i] == c;
      OrderedKeyHasPoint(c, |c.points|, k);
      assert IsPlan(c, |c.points|, plans[i]);
    }
  }

  lemma KeptHull(commits: seq<Commit>, kept: seq<Commit>, plans: seq<Plan>, ranges: map<MetricKey, Range>)
    requires kept == NonEmpty(commits) && |kept| == |plans| && AreTight(kept, ranges)
    requires forall j :: 0 <= j < |kept| ==> kept[j] in commits
    requires forall i :: 0 <= i < |plans| ==> IsPlan(kept[i], |kept[i].points|, plans[i]) && Covers(ranges, plans[i])
    ensures IsHull(commits, ranges)
  {
    hide AreTight, IsPlan, Covers, HoldsGroup, RangeOf, NonEmpty;
    KeptAreTight(commits, kept, ranges);
    forall c, k | c in commits
      ensures HoldsGroup(c, k, RangeOf(ranges, k)) && (k in KeysInOrder(c, |c.points|) ==> k in ranges)
    {
      CommitIsHeld(commits, kept, plans, ranges, c, k);
    }
  }

  // ---- What the messages say ----

  /** A row a commit announces of a metric: stored, among the commit's points, and with something to show. */
  ghost predicate IsAnnouncedRow(rows: set<Row>, metricOf: map<Hash, MetricKey>, c: Commit, k: MetricKey, r: Row) {
    && r in rows && r.series in metricOf && metricOf[r.series] == k
    && (exists i :: 0 <= i < |c.points| && HasKey(c, i, k) && c.points[i].id == r.id)
    && HasDelta(Derived(MetricRows(rows, metricOf, k), r))
  }

  predicate IsPointOf(p: DerivedPoint, r: Row) { p.id == r.id && p.series == r.series && p.ts == r.ts }

  /** The message holds a point of each such row, and no others. */
  ghost predicate SaysGroup(rows: set<Row>, metricOf: map<Hash, MetricKey>, c: Commit, k: MetricKey,
                            points: set<DerivedPoint>) {
    && (forall r :: IsAnnouncedRow(rows, metricOf, c, k, r) ==> exists p :: p in points && IsPointOf(p, r))
    && (forall p :: p in points ==> exists r :: IsAnnouncedRow(rows, metricOf, c, k, r) && IsPointOf(p, r))
  }

  lemma AnnouncedSays(rows: set<Row>, metricOf: map<Hash, MetricKey>, c: Commit, k: MetricKey, w: Range)
    ensures SaysGroup(rows, metricOf, c, k, Announced(rows, metricOf, k, IdsOf(c, |c.points|, k), w))
  {
    var ids, selected := IdsOf(c, |c.points|, k), SelectedIn(MetricRows(rows, metricOf, k), w);
    forall r: Row ensures IsPointOf(Derived(selected, r), r) {}
    hide Derived, HasDelta, IsPointOf, SelectedIn;
    forall r ensures r in AnnouncedRows(rows, metricOf, k, ids) <==> IsAnnouncedRow(rows, metricOf, c, k, r) {}
    hide IsAnnouncedRow, AnnouncedRows, IdsOf;
    forall r | r in AnnouncedRows(rows, metricOf, k, ids)
      ensures exists p :: p in Announced(rows, metricOf, k, ids, w) && IsPointOf(p, r)
    {
      assert Derived(selected, r) in Announced(rows, metricOf, k, ids, w);
    }
  }

  /** A message for each metric with such a row, none empty, in the order of the metrics. */
  ghost predicate SaysGroups(rows: set<Row>, metricOf: map<Hash, MetricKey>, c: Commit, keys: seq<MetricKey>,
                             messages: seq<Message>) {
    && (forall m :: m in messages ==>
          m.key in keys && m.points != {} && SaysGroup(rows, metricOf, c, m.key, m.points))
    && (forall k, r :: k in keys && IsAnnouncedRow(rows, metricOf, c, k, r) ==> HasMessage(messages, k))
    && (forall p, q :: 0 <= p < q < |messages| ==> ComesBefore(keys, messages[p].key, messages[q].key))
  }

  ghost predicate HasMessage(messages: seq<Message>, k: MetricKey) { exists m :: m in messages && m.key == k }

  ghost predicate ComesBefore(keys: seq<MetricKey>, j: MetricKey, k: MetricKey) {
    exists a, b :: 0 <= a < b < |keys| && keys[a] == j && keys[b] == k
  }

  lemma {:induction false} CommitMessagesSay(rows: set<Row>, metricOf: map<Hash, MetricKey>,
                                             ranges: map<MetricKey, Range>, c: Commit, keys: seq<MetricKey>)
    ensures SaysGroups(rows, metricOf, c, keys, CommitMessages(rows, metricOf, ranges, c, keys))
  {
    hide CommitMessages, SaysGroup, IsAnnouncedRow;
    NoMessages(rows, metricOf, ranges, c);
    if keys != [] {
      var n := |keys| - 1;
      var before := CommitMessages(rows, metricOf, ranges, c, keys[..n]);
      CommitMessagesSay(rows, metricOf, ranges, c, keys[..n]);
      MessageStep(rows, metricOf, ranges, c, keys);
      GroupMessageSays(rows, metricOf, ranges, c, keys[n]);
      assert keys == keys[..n] + [keys[n]];
      OneMoreSays(rows, metricOf, c, keys[..n], keys[n], before, GroupMessage(rows, metricOf, ranges, c, keys[n]));
    }
  }

  lemma GroupMessageSays(rows: set<Row>, metricOf: map<Hash, MetricKey>, ranges: map<MetricKey, Range>, c: Commit,
                         k: MetricKey)
    ensures var own := GroupMessage(rows, metricOf, ranges, c, k);
      && |own| <= 1
      && (own != [] ==>
            own[0].key == k && own[0].points != {} && SaysGroup(rows, metricOf, c, k, own[0].points))
      && forall r :: IsAnnouncedRow(rows, metricOf, c, k, r) ==> own != []
  {
    AnnouncedSays(rows, metricOf, c, k, RangeOf(ranges, k));
    hide Announced, IsAnnouncedRow, IsPointOf;
  }

  lemma OneMoreSays(rows: set<Row>, metricOf: map<Hash, MetricKey>, c: Commit, keys: seq<MetricKey>, k: MetricKey,
                    before: seq<Message>, own: seq<Message>)
    requires SaysGroups(rows, metricOf, c, keys, before) && |own| <= 1
    requires own != [] ==> own[0].key == k && own[0].points != {} && SaysGroup(rows, metricOf, c, k, own[0].points)
    requires forall r :: IsAnnouncedRow(rows, metricOf, c, k, r) ==> own != []
    ensures SaysGroups(rows, metricOf, c, keys + [k], before + own)
  {
    hide SaysGroup, IsAnnouncedRow;
    var all := before + own;
    forall m | m in before ensures m in all {}
    if own != [] { assert own[0] in all; }
    forall p, q | 0 <= p < q < |all| ensures ComesBefore(keys + [k], all[p].key, all[q].key) {
      if q < |before| {
        var a, b :| 0 <= a < b < |keys| && keys[a] == before[p].key && keys[b] == before[q].key;
        assert (keys + [k])[a] == keys[a] && (keys + [k])[b] == keys[b];
      } else {
        assert before[p] in before;
        var a :| 0 <= a < |keys| && keys[a] == before[p].key;
        assert (keys + [k])[a] == keys[a] && (keys + [k])[|keys|] == k;
      }
    }
  }

  /** The messages of each commit, in commit order. */
  lemma {:induction false} MessagesSayCommits(rows: set<Row>, metricOf: map<Hash, MetricKey>,
                                              ranges: map<MetricKey, Range>, commits: seq<Commit>)
    returns (parts: seq<seq<Message>>)
    ensures |parts| == |commits| && AllMessages(rows, metricOf, ranges, commits) == Flat(parts)
    ensures forall i :: 0 <= i < |commits| ==>
      SaysGroups(rows, metricOf, commits[i], KeysInOrder(commits[i], |commits[i].points|), parts[i])
  {
    hide SaysGroups, CommitMessages, KeysInOrder;
    parts := [];
    if commits != [] {
      var n := |commits| - 1;
      var c, keys := commits[n], KeysInOrder(commits[n], |commits[n].points|);
      var before := MessagesSayCommits(rows, metricOf, ranges, commits[..n]);
      CommitMessagesSay(rows, metricOf, ranges, c, keys);
      parts := before + [CommitMessages(rows, metricOf, ranges, c, keys)];
      assert parts[..n] == before;
    }
  }

  // ---- Together or one by one ----

  /** What each commit sent on its own would announce. */
  ghost function OneByOne(rows: set<Row>, metricOf: map<Hash, MetricKey>, own: seq<map<MetricKey, Range>>,
                          commits: seq<Commit>): seq<Message>
    requires |own| == |commits|
  {
    if commits == [] then []
    else
      var n := |commits| - 1;
      OneByOne(rows, metricOf, own[..n], commits[..n]) + AllMessages(rows, metricOf, own[n], [commits[n]])
  }

  /** The window of the batch adds nothing to the totals of any point a commit announces. */
  ghost predicate GroupTotalsAlike(rows: set<Row>, metricOf: map<Hash, MetricKey>, k: MetricKey, ids: set<string>,
                                   wide: Range, own: Range) {
    forall r :: r in AnnouncedRows(rows, metricOf, k, ids) ==>
      TotalsAlike(MetricRows(rows, metricOf, k), wide.from, wide.to + 1, own.from, own.to + 1, r)
  }

  lemma GroupRows(c: Commit, rows: set<Row>, metricOf: map<Hash, MetricKey>, k: MetricKey)
    requires WellFormed(rows) && IsStored(c, rows, metricOf)
    ensures var mine := MetricRows(rows, metricOf, k);
      WellFormed(mine) && forall q, r :: q in mine && r in mine && q.id == r.id ==> q == r
  {
  }

  /** One group through two windows: the same rows, and the same points exactly when the totals are alike. */
  lemma GroupAlikeIff(c: Commit, rows: set<Row>, metricOf: map<Hash, MetricKey>, k: MetricKey, wide: Range, own: Range)
    requires WellFormed(rows) && IsStored(c, rows, metricOf) && HoldsGroup(c, k, own)
    requires wide.from <= own.from && own.to <= wide.to
    ensures var ids := IdsOf(c, |c.points|, k);
      && (Announced(rows, metricOf, k, ids, wide) == {} <==> Announced(rows, metricOf, k, ids, own) == {})
      && (Announced(rows, metricOf, k, ids, wide) == Announced(rows, metricOf, k, ids, own)
          <==> GroupTotalsAlike(rows, metricOf, k, ids, wide, own))
  {
    hide Derived, TotalsAlike, WellFormed, HasDelta, IdsOf, HoldsGroup, Selected, IsStored;
    var mine, ids := MetricRows(rows, metricOf, k), IdsOf(c, |c.points|, k);
    var shown, a, b := AnnouncedRows(rows, metricOf, k, ids), SelectedIn(mine, wide), SelectedIn(mine, own);
    GroupRows(c, rows, metricOf, k);
    forall r | r in shown
      ensures Derived(a, r) == Derived(b, r) <==> TotalsAlike(mine, wide.from, wide.to + 1, own.from, own.to + 1, r)
    {
      GroupInWindow(c, rows, metricOf, k, own, r);
      DerivedAlikeIff(mine, wide.from, wide.to + 1, own.from, own.to + 1, r);
    }
    PointsAlikeIff(shown, a, b);
  }

  /** Sets of points of distinct ids are equal only point by point. */
  lemma PointsAlikeIff(shown: set<Row>, a: set<Row>, b: set<Row>)
    requires forall q, r :: q in shown && r in shown && q.id == r.id ==> q == r
    ensures var one, other := set r | r in shown :: Derived(a, r), set r | r in shown :: Derived(b, r);
      && (one == {} <==> other == {})
      && (one == other <==> forall r :: r in shown ==> Derived(a, r) == Derived(b, r))
  {
    hide Derived;
    var one, other := set r | r in shown :: Derived(a, r), set r | r in shown :: Derived(b, r);
    forall r | r in shown
      ensures Derived(a, r).id == r.id == Derived(b, r).id
      ensures Derived(a, r) in one && Derived(b, r) in other
    {
      DerivedNamesItsRow(a, r);
      DerivedNamesItsRow(b, r);
    }
    if one == other {
      forall r | r in shown ensures Derived(a, r) == Derived(b, r) {
        assert Derived(a, r) in other;
        var q :| q in shown && Derived(b, q) == Derived(a, r);
      }
    }
  }

  /** For every metric of the commit, a window of its own inside the batch's. */
  ghost predicate IsInside(c: Commit, own: map<MetricKey, Range>, ranges: map<MetricKey, Range>) {
    forall k :: k in KeysInOrder(c, |c.points|) ==>
      HoldsGroup(c, k, RangeOf(own, k)) && RangeOf(ranges, k).from <= RangeOf(own, k).from &&
        RangeOf(own, k).to <= RangeOf(ranges, k).to
  }

  /** The window a commit asks for on its own lies inside that of any batch it is part of. */
  lemma OwnIsInside(commits: seq<Commit>, ranges: map<MetricKey, Range>, c: Commit, own: map<MetricKey, Range>)
    requires c in commits && IsHull(commits, ranges) && IsHull([c], own)
    ensures IsInside(c, own, ranges)
  {
    hide KeysInOrder;
    assert c in [c];
    forall k | k in KeysInOrder(c, |c.points|)
      ensures RangeOf(ranges, k).from <= RangeOf(own, k).from && RangeOf(own, k).to <= RangeOf(ranges, k).to
    {
      assert HoldsGroup(c, k, RangeOf(ranges, k));
      assert IsTaken([c], k, own[k].from) && IsTaken([c], k, own[k].to);
    }
  }

  ghost predicate CommitTotalsAlike(rows: set<Row>, metricOf: map<Hash, MetricKey>, c: Commit,
                                    ranges: map<MetricKey, Range>,
                                    own: map<MetricKey, Range>, keys: seq<MetricKey>) {
    forall i :: 0 <= i < |keys| ==>
      GroupTotalsAlike(rows, metricOf, keys[i], IdsOf(c, |c.points|, keys[i]), RangeOf(ranges, keys[i]),
                       RangeOf(own, keys[i]))
  }

  lemma AppendedAlike<T>(a: seq<T>, b: seq<T>, c: seq<T>, d: seq<T>)
    requires |a| == |b|
    ensures a + c == b + d <==> a == b && c == d
  {
    assert (a + c)[..|a|] == a && (b + d)[..|a|] == b && (a + c)[|a|..] == c && (b + d)[|a|..] == d;
  }

  lemma {:induction false} CommitAlikeIff(rows: set<Row>, metricOf: map<Hash, MetricKey>, ranges: map<MetricKey, Range>,
                                          own: map<MetricKey, Range>, c: Commit, keys: seq<MetricKey>)
    requires WellFormed(rows) && IsStored(c, rows, metricOf) && IsInside(c, own, ranges)
    requires forall i :: 0 <= i < |keys| ==> keys[i] in KeysInOrder(c, |c.points|)
    ensures var together := CommitMessages(rows, metricOf, ranges, c, keys);
      var alone := CommitMessages(rows, metricOf, own, c, keys);
      |together| == |alone| && (together == alone <==> CommitTotalsAlike(rows, metricOf, c, ranges, own, keys))
  {
    hide CommitMessages, Announced, IdsOf, GroupTotalsAlike, WellFormed, IsStored, KeysInOrder, RangeOf;
    if keys == [] {
      NoMessages(rows, metricOf, ranges, c);
      NoMessages(rows, metricOf, own, c);
    } else {
      var n := |keys| - 1;
      var k := keys[n];
      CommitAlikeIff(rows, metricOf, ranges, own, c, keys[..n]);
      GroupAlikeIff(c, rows, metricOf, k, RangeOf(ranges, k), RangeOf(own, k));
      MessageStep(rows, metricOf, ranges, c, keys);
      MessageStep(rows, metricOf, own, c, keys);
      AppendedAlike(CommitMessages(rows, metricOf, ranges, c, keys[..n]),
                    CommitMessages(rows, metricOf, own, c, keys[..n]),
                    GroupMessage(rows, metricOf, ranges, c, k), GroupMessage(rows, metricOf, own, c, k));
    }
  }

  /** At most one message for one metric. */
  ghost function GroupMessage(rows: set<Row>, metricOf: map<Hash, MetricKey>, ranges: map<MetricKey, Range>, c: Commit,
                              k: MetricKey): seq<Message> {
    var points := Announced(rows, metricOf, k, IdsOf(c, |c.points|, k), RangeOf(ranges, k));
    if points == {} then [] else [Message(k, points)]
  }

  lemma NoMessages(rows: set<Row>, metricOf: map<Hash, MetricKey>, ranges: map<MetricKey, Range>, c: Commit)
    ensures CommitMessages(rows, metricOf, ranges, c, []) == []
  {
  }

  lemma MessageStep(rows: set<Row>, metricOf: map<Hash, MetricKey>, ranges: map<MetricKey, Range>, c: Commit,
                    keys: seq<MetricKey>)
    requires keys != []
    ensures CommitMessages(rows, metricOf, ranges, c, keys)
      == CommitMessages(rows, metricOf, ranges, c, keys[..|keys| - 1]) +
        GroupMessage(rows, metricOf, ranges, c, keys[|keys| - 1])
  {
  }

  lemma AloneIs(rows: set<Row>, metricOf: map<Hash, MetricKey>, own: map<MetricKey, Range>, c: Commit)
    ensures AllMessages(rows, metricOf, own, [c]) == CommitMessages(rows, metricOf, own, c, KeysInOrder(c, |c.points|))
  {
    assert [c][..0] == [];
  }

  lemma {:induction false} InsideIsCommitByCommit(rows: set<Row>, metricOf: map<Hash, MetricKey>,
          ranges: map<MetricKey, Range>,
                                                  own: seq<map<MetricKey, Range>>, commits: seq<Commit>)
    requires WellFormed(rows) && |own| == |commits|
    requires forall i :: 0 <= i < |commits| ==>
      IsStored(commits[i], rows, metricOf) && IsInside(commits[i], own[i], ranges)
    ensures |AllMessages(rows, metricOf, ranges, commits)| == |OneByOne(rows, metricOf, own, commits)|
    ensures AllMessages(rows, metricOf, ranges, commits) == OneByOne(rows, metricOf, own, commits)
      <==> forall i :: 0 <= i < |commits| ==>
        CommitTotalsAlike(rows, metricOf, commits[i], ranges, own[i], KeysInOrder(commits[i], |commits[i].points|))
  {
    hide CommitMessages, CommitTotalsAlike, WellFormed, IsStored, IsInside, KeysInOrder;
    if commits != [] {
      var n := |commits| - 1;
      var c := commits[n];
      InsideIsCommitByCommit(rows, metricOf, ranges, own[..n], commits[..n]);
      CommitAlikeIff(rows, metricOf, ranges, own[n], c, KeysInOrder(c, |c.points|));
      AloneIs(rows, metricOf, own[n], c);
      AppendedAlike(AllMessages(rows, metricOf, ranges, commits[..n]), OneByOne(rows, metricOf, own[..n], commits[..n]),
                    CommitMessages(rows, metricOf, ranges, c, KeysInOrder(c, |c.points|)),
                    AllMessages(rows, metricOf, own[n], [c]));
    }
  }

  /**
   * A batch announces its commits one by one: message for message the same metrics and rows, and the very same messages
   * exactly when the batch's wider windows add nothing to the running totals of the delta series announced.
   */
  lemma BatchIsCommitByCommit(rows: set<Row>, metricOf: map<Hash, MetricKey>, ranges: map<MetricKey, Range>,
                              own: seq<map<MetricKey, Range>>, commits: seq<Commit>)
    requires WellFormed(rows) && |own| == |commits| && IsHull(commits, ranges)
    requires forall i :: 0 <= i < |commits| ==> IsStored(commits[i], rows, metricOf) && IsHull([commits[i]], own[i])
    ensures |AllMessages(rows, metricOf, ranges, commits)| == |OneByOne(rows, metricOf, own, commits)|
    ensures AllMessages(rows, metricOf, ranges, commits) == OneByOne(rows, metricOf, own, commits)
      <==> forall i :: 0 <= i < |commits| ==>
        CommitTotalsAlike(rows, metricOf, commits[i], ranges, own[i], KeysInOrder(commits[i], |commits[i].points|))
  {
    hide AllMessages, OneByOne, CommitTotalsAlike, WellFormed, IsStored, IsInside, IsHull, KeysInOrder;
    forall i | 0 <= i < |commits| ensures IsInside(commits[i], own[i], ranges) {
      OwnIsInside(commits, ranges, commits[i], own[i]);
    }
    InsideIsCommitByCommit(rows, metricOf, ranges, own, commits);
  }
}
