// Live revalidation of a trace search: pending ids, one request at a time, and versions that keep stale replies out.
module LiveTraceSearch {
  import opened Filters
  import opened Order

  const FIRST_DELAY: int := 500
  const LAST_DELAY: int := 10000
  const REQUEST_SIZE: nat := 1000

  datatype Entry = Entry(id: string, version: int)

  /** A JavaScript Map: entries in insertion order, one per id. */
  type Pending = seq<Entry>

  /**
   * The effect's variables, the atoms it works on, and two records for the proof: the version of each id's latest live
   * update, and the version count when the request in flight was sent.
   */
  datatype Live = Live(
    disposed: bool, timer: bool, request: Option<seq<Entry>>, version: int, retryDelay: int, pending: Pending,
    buffered: set<string>, matched: set<string>, latest: map<string, int>, sentAt: int)

  function Started(buffered: set<string>, matched: set<string>): Live {
    Live(false, false, None, 0, FIRST_DELAY, [], buffered, matched, map[], 0)
  }

  datatype Action =
    | Update(ids: seq<string>)
    | Fire
    | Reply(result: set<string>)
    | Fail
    | Rebuffer(buffered: set<string>)
    | Dispose

  predicate Enabled(s: Live, a: Action) {
    match a
    case Update(_) => !s.disposed
    case Fire => s.timer
    case Reply(_) => s.request.Some?
    case Fail => s.request.Some?
    case Rebuffer(_) => true
    case Dispose => !s.disposed
  }

  // ---- The Map ----

  predicate HasId(p: Pending, id: string) { exists e :: e in p && e.id == id }

  ghost predicate UniqueIds(p: Pending) { forall i, j :: 0 <= i < j < |p| ==> p[i].id != p[j].id }

  /** Map.set: an id already there keeps its place. */
  function Put(p: Pending, id: string, version: int): (q: Pending) {
    if p == [] then [Entry(id, version)]
    else if p[0].id == id then [Entry(id, version)] + p[1..]
    else [p[0]] + Put(p[1..], id, version)
  }

  function IsBuffered(ids: set<string>): Entry -> bool { (e: Entry) => e.id in ids }

  /** What a batch does not settle: ids it lacks, or that have been updated since. */
  function IsUnsettled(batch: seq<Entry>): Entry -> bool { (e: Entry) => e !in batch }

  function Settled(p: Pending, batch: seq<Entry>): set<string> { set e | e in p && e in batch :: e.id }

  function FirstOf(p: Pending): seq<Entry> { if |p| <= REQUEST_SIZE then p else p[..REQUEST_SIZE] }

  // ---- Actions ----

  function Scheduled(s: Live): Live {
    if !s.disposed && s.request.None? && !s.timer && s.pending != [] then s.(timer := true) else s
  }

  function Noted(s: Live, ids: seq<string>): Live {
    if ids == [] then s
    else
      var n := |ids| - 1;
      var t := Noted(s, ids[..n]);
      t.(version := t.version + 1, pending := Put(t.pending, ids[n], t.version + 1),
         latest := t.latest[ids[n] := t.version + 1])
  }

  function AfterFire(s: Live): Live {
    var pending := Filter(s.pending, IsBuffered(s.buffered));
    var t := s.(timer := false, pending := pending);
    if pending == [] then Scheduled(t) else t.(request := Some(FirstOf(pending)), sentAt := s.version)
  }

  /** Verdicts for what is still as it was sent; everything else stays pending. */
  function AfterReply(s: Live, result: set<string>): Live
    requires s.request.Some?
  {
    if s.disposed then Scheduled(s.(request := None))
    else
      var settled := Settled(s.pending, s.request.value);
      Scheduled(s.(
        request := None, retryDelay := FIRST_DELAY, pending := Filter(s.pending, IsUnsettled(s.request.value)),
        matched := (s.matched - settled) + (settled * result)))
  }

  function AfterFail(s: Live): Live {
    Scheduled(s.(request := None, retryDelay := if s.retryDelay * 2 < LAST_DELAY then s.retryDelay * 2 else LAST_DELAY))
  }

  function After(s: Live, a: Action): Live
    requires Enabled(s, a)
  {
    match a
    case Update(ids) => Scheduled(Noted(s, ids))
    case Fire => AfterFire(s)
    case Reply(result) => AfterReply(s, result)
    case Fail => AfterFail(s)
    case Rebuffer(buffered) => s.(buffered := buffered)
    case Dispose => s.(disposed := true, timer := false)
  }

  // ---- What always holds ----

  /** Every pending id carries the version of its latest update. */
  ghost predicate IsLatest(p: Pending, latest: map<string, int>) {
    forall i :: 0 <= i < |p| ==> p[i].id in latest && p[i].version == latest[p[i].id]
  }

  /** Each id of the request in flight is still pending, perhaps in a newer version. */
  ghost predicate IsTracked(batch: seq<Entry>, p: Pending, sentAt: int) {
    forall i :: 0 <= i < |batch| ==> batch[i].version <= sentAt && HasId(p, batch[i].id)
  }

  ghost predicate Valid(s: Live) {
    && 500 <= s.retryDelay <= 10_000
    && !(s.timer && s.request.Some?) && (s.disposed ==> !s.timer)
    && (!s.disposed && s.pending != [] ==> s.timer || s.request.Some?)
    && UniqueIds(s.pending) && IsLatest(s.pending, s.latest)
    && (forall id :: id in s.latest ==> s.latest[id] <= s.version)
    && (s.request.Some? ==>
          && 0 < |s.request.value| <= 1000 && s.sentAt <= s.version
          && IsTracked(s.request.value, s.pending, s.sentAt))
  }

  lemma {:induction false} PutHas(p: Pending, id: string, version: int, e: Entry)
    requires UniqueIds(p)
    ensures e in Put(p, id, version) <==> e == Entry(id, version) || (e in p && e.id != id)
  {
    if p != [] {
      var rest := p[1..];
      assert p == [p[0]] + rest;
      if p[0].id == id {
        assert forall j :: 0 <= j < |rest| ==> rest[j].id == p[j + 1].id != p[0].id;
      } else {
        assert UniqueIds(rest);
        PutHas(rest, id, version, e);
      }
    }
  }

  lemma {:induction false} PutUnique(p: Pending, id: string, version: int)
    requires UniqueIds(p)
    ensures UniqueIds(Put(p, id, version)) && Put(p, id, version) != []
  {
    if p != [] {
      var rest := p[1..];
      assert UniqueIds(rest);
      if p[0].id == id {
        assert forall j :: 0 <= j < |rest| ==> rest[j] == p[j + 1];
      } else {
        PutUnique(rest, id, version);
        var q := Put(rest, id, version);
        forall j | 0 <= j < |q| ensures q[j].id != p[0].id {
          PutHas(rest, id, version, q[j]);
          if q[j] in rest {
            var k :| 0 <= k < |rest| && rest[k] == q[j];
            assert p[k + 1].id != p[0].id;
          }
        }
      }
    }
  }

  lemma {:induction false} FilterUnique(p: Pending, keep: Entry -> bool)
    requires UniqueIds(p)
    ensures UniqueIds(Filter(p, keep))
  {
    if p != [] {
      var n := |p| - 1;
      FilterUnique(p[..n], keep);
      var q := Filter(p[..n], keep);
      FilterHas(p[..n], keep);
      forall j | 0 <= j < |q| ensures q[j].id != p[n].id {
        assert q[j] in q;
        var k :| 0 <= k < n && p[k] == q[j];
      }
    }
  }

  // ---- Each action keeps it ----

  /** Noting updates: only later versions, and every id noted carries its own. */
  lemma {:induction false} NotedKeeps(s: Live, ids: seq<string>)
    requires UniqueIds(s.pending) && IsLatest(s.pending, s.latest)
    requires forall id :: id in s.latest ==> s.latest[id] <= s.version
    ensures var t := Noted(s, ids);
      && t == s.(version := t.version, pending := t.pending, latest := t.latest)
      && t.version == s.version + |ids|
      && UniqueIds(t.pending) && IsLatest(t.pending, t.latest)
      && (forall id :: id in t.latest ==> t.latest[id] <= t.version)
      && (ids != [] ==> t.pending != [])
  {
    if ids != [] {
      var n := |ids| - 1;
      NotedKeeps(s, ids[..n]);
      var t := Noted(s, ids[..n]);
      PutUnique(t.pending, ids[n], t.version + 1);
      var q := Put(t.pending, ids[n], t.version + 1);
      var latest := t.latest[ids[n] := t.version + 1];
      forall i | 0 <= i < |q| ensures q[i].id in latest && q[i].version == latest[q[i].id] {
        PutHas(t.pending, ids[n], t.version + 1, q[i]);
      }
    }
  }

  lemma {:induction false} NotedHas(s: Live, ids: seq<string>, id: string)
    requires UniqueIds(s.pending) && IsLatest(s.pending, s.latest)
    requires forall x :: x in s.latest ==> s.latest[x] <= s.version
    ensures HasId(Noted(s, ids).pending, id) <==> HasId(s.pending, id) || id in ids
  {
    hide Put, HasId, UniqueIds, IsLatest;
    if ids != [] {
      var n := |ids| - 1;
      NotedHas(s, ids[..n], id);
      NotedKeeps(s, ids[..n]);
      var t := Noted(s, ids[..n]);
      assert ids == ids[..n] + [ids[n]];
      PutHasId(t.pending, ids[n], t.version + 1, id);
    }
  }

  /** An update leaves its id a version above all earlier ones, and other ids alone. */
  lemma {:induction false} NotedLatest(s: Live, ids: seq<string>, id: string)
    ensures var t := Noted(s, ids);
      && t.version == s.version + |ids|
      && (id in ids ==> id in t.latest && t.latest[id] > s.version)
      && (id !in ids && id in s.latest ==> id in t.latest && t.latest[id] == s.latest[id])
  {
    hide Put;
    if ids != [] {
      var n := |ids| - 1;
      NotedLatest(s, ids[..n], id);
      assert ids == ids[..n] + [ids[n]];
    }
  }

  lemma PutHasId(p: Pending, id: string, version: int, x: string)
    requires UniqueIds(p)
    ensures HasId(Put(p, id, version), x) <==> x == id || HasId(p, x)
  {
    var q := Put(p, id, version);
    PutHas(p, id, version, Entry(id, version));
    if HasId(q, x) {
      var e :| e in q && e.id == x;
      PutHas(p, id, version, e);
    }
    if HasId(p, x) && x != id {
      var e :| e in p && e.id == x;
      PutHas(p, id, version, e);
    }
  }

  lemma UpdateKeepsValid(s: Live, ids: seq<string>)
    requires Valid(s) && !s.disposed
    ensures Valid(Scheduled(Noted(s, ids)))
  {
    NotedKeeps(s, ids);
    var t := Noted(s, ids);
    hide Noted;
    if s.request.Some? {
      forall i | 0 <= i < |s.request.value| ensures HasId(t.pending, s.request.value[i].id) {
        NotedHas(s, ids, s.request.value[i].id);
      }
    }
  }

  lemma FireKeepsValid(s: Live)
    requires Valid(s) && s.timer
    ensures Valid(AfterFire(s))
  {
    FilterUnique(s.pending, IsBuffered(s.buffered));
    FilterHas(s.pending, IsBuffered(s.buffered));
    var pending := Filter(s.pending, IsBuffered(s.buffered));
    hide Filter;
    forall i | 0 <= i < |pending| ensures pending[i].id in s.latest && pending[i].version == s.latest[pending[i].id] {
      assert pending[i] in pending;
    }
    var batch := FirstOf(pending);
    forall i | 0 <= i < |batch| ensures batch[i].version <= s.version && HasId(pending, batch[i].id) {
      assert batch[i] == pending[i];
    }
  }

  lemma ReplyKeepsValid(s: Live, result: set<string>)
    requires Valid(s) && s.request.Some?
    ensures Valid(AfterReply(s, result))
  {
    var keep := IsUnsettled(s.request.value);
    FilterUnique(s.pending, keep);
    FilterHas(s.pending, keep);
    var pending := Filter(s.pending, keep);
    hide Filter;
    forall i | 0 <= i < |pending| ensures pending[i].id in s.latest && pending[i].version == s.latest[pending[i].id] {
      assert pending[i] in pending;
    }
  }

  lemma StepKeepsValid(s: Live, a: Action)
    requires Valid(s) && Enabled(s, a)
    ensures Valid(After(s, a))
  {
    match a
    case Update(ids) => UpdateKeepsValid(s, ids);
    case Fire => FireKeepsValid(s);
    case Reply(result) => ReplyKeepsValid(s, result);
    case Fail =>
    case Rebuffer(_) =>
    case Dispose =>
  }

  // ---- Verdicts ----

  /** The ids whose verdict an action writes. */
  function Verdicts(s: Live, a: Action): set<string> {
    if a.Reply? && s.request.Some? && !s.disposed then Settled(s.pending, s.request.value) else {}
  }

  /** A verdict is for the latest version of its id, which the request carried. */
  lemma VerdictIsCurrent(s: Live, a: Action, id: string)
    requires Valid(s) && Enabled(s, a) && id in Verdicts(s, a)
    ensures id in s.latest && s.latest[id] <= s.sentAt && Entry(id, s.latest[id]) in s.request.value
  {
    var e :| e in s.pending && e in s.request.value && e.id == id;
    var i :| 0 <= i < |s.pending| && s.pending[i] == e;
    var j :| 0 <= j < |s.request.value| && s.request.value[j] == e;
  }

  /** It says what the reply says, and no other id's verdict changes. */
  lemma VerdictIsTheReplys(s: Live, a: Action, id: string)
    requires Valid(s) && Enabled(s, a)
    ensures id in Verdicts(s, a) ==> (id in After(s, a).matched <==> id in a.result)
    ensures id !in Verdicts(s, a) ==> (id in After(s, a).matched <==> id in s.matched)
  {
    match a
    case Update(ids) => NotedKeeps(s, ids);
    case _ =>
  }

  /** A pending id is only let go by its verdict, or because the browser no longer holds its trace. */
  lemma PendingUntilCovered(s: Live, a: Action, id: string)
    requires Valid(s) && Enabled(s, a) && HasId(s.pending, id)
    ensures HasId(After(s, a).pending, id) || id in Verdicts(s, a) || (a.Fire? && id !in s.buffered)
  {
    var e :| e in s.pending && e.id == id;
    match a
    case Update(ids) => NotedHas(s, ids, id);
    case Fire => FilterHas(s.pending, IsBuffered(s.buffered));
    case Reply(_) =>
      if !s.disposed {
        FilterHas(s.pending, IsUnsettled(s.request.value));
        if e in s.request.value { assert id in Settled(s.pending, s.request.value); }
      }
    case _ =>
  }

  // ---- Runs ----

  ghost predicate IsRun(states: seq<Live>, actions: seq<Action>) {
    && |states| == |actions| + 1 && states[0] == Started(states[0].buffered, states[0].matched)
    && forall i :: 0 <= i < |actions| ==>
      Enabled(states[i], actions[i]) && states[i + 1] == After(states[i], actions[i])
  }

  /** In every run: bounded delays, one request at a time, and pending work always has a timer or a request. */
  lemma {:induction false} RunIsValid(states: seq<Live>, actions: seq<Action>, n: nat)
    requires IsRun(states, actions) && n <= |actions|
    ensures Valid(states[n])
  {
    if n > 0 {
      RunIsValid(states, actions, n - 1);
      hide Valid;
      assert Enabled(states[n - 1], actions[n - 1]) && states[n] == After(states[n - 1], actions[n - 1]);
      StepKeepsValid(states[n - 1], actions[n - 1]);
    }
  }

  /** Failures since the last reply that was taken in. */
  function FailuresInARow(states: seq<Live>, actions: seq<Action>): nat
    requires |states| >= |actions|
  {
    if actions == [] then 0
    else
      var n := |actions| - 1;
      var before := FailuresInARow(states[..n], actions[..n]);
      if actions[n].Fail? then before + 1
      else if actions[n].Reply? && !states[n].disposed then 0
      else before
  }

  /** The delay doubles with every failure in a row, from half a second to ten seconds, and a reply resets it. */
  lemma {:induction false} DelayFollowsFailures(states: seq<Live>, actions: seq<Action>, n: nat)
    requires IsRun(states, actions) && n <= |actions|
    ensures var failures, delay := FailuresInARow(states[..n], actions[..n]), states[n].retryDelay;
      && (failures == 0 ==> delay == 500) && (failures == 1 ==> delay == 1000) && (failures == 2 ==> delay == 2000)
      && (failures == 3 ==> delay == 4000) && (failures == 4 ==> delay == 8000) && (failures >= 5 ==> delay == 10_000)
  {
    if n > 0 {
      DelayFollowsFailures(states, actions, n - 1);
      assert Enabled(states[n - 1], actions[n - 1]) && states[n] == After(states[n - 1], actions[n - 1]);
      assert states[..n][..n - 1] == states[..n - 1] && actions[..n][..n - 1] == actions[..n - 1];
      DelayChanges(states[n - 1], actions[n - 1]);
      hide After;
    }
  }

  lemma DelayChanges(s: Live, a: Action)
    requires Enabled(s, a)
    ensures var delay := After(s, a).retryDelay;
      && (a.Fail? ==> delay == if s.retryDelay < 5000 then 2 * s.retryDelay else 10_000)
      && (a.Reply? && !s.disposed ==> delay == 500)
      && (!a.Fail? && !(a.Reply? && !s.disposed) ==> delay == s.retryDelay)
  {
    if a.Update? { NotedDelay(s, a.ids); }
  }

  lemma {:induction false} NotedDelay(s: Live, ids: seq<string>)
    ensures Noted(s, ids).retryDelay == s.retryDelay
  {
    if ids != [] { NotedDelay(s, ids[..|ids| - 1]); }
  }

  /** After disposal no request is sent and no verdict written any more. */
  lemma DisposedIsQuiet(s: Live, a: Action)
    requires Valid(s) && s.disposed && Enabled(s, a)
    ensures !a.Fire? && After(s, a).disposed && After(s, a).matched == s.matched
    ensures After(s, a).request.Some? ==> After(s, a).request == s.request
  {
  }

  lemma LatestGrows(s: Live, a: Action, id: string)
    requires Valid(s) && Enabled(s, a)
    ensures After(s, a).version >= s.version
    ensures id in s.latest ==> id in After(s, a).latest && After(s, a).latest[id] >= s.latest[id]
    ensures a.Update? && id in a.ids ==> id in After(s, a).latest && After(s, a).latest[id] > s.version
  {
    if a.Update? { NotedLatest(s, a.ids, id); }
  }

  lemma {:induction false} LatestStaysAbove(states: seq<Live>, actions: seq<Action>, n: nat, m: nat, id: string)
    requires IsRun(states, actions) && n <= m <= |actions|
    ensures states[m].version >= states[n].version
    ensures id in states[n].latest ==> id in states[m].latest && states[m].latest[id] >= states[n].latest[id]
  {
    if n < m {
      LatestStaysAbove(states, actions, n, m - 1, id);
      RunIsValid(states, actions, m - 1);
      assert Enabled(states[m - 1], actions[m - 1]) && states[m] == After(states[m - 1], actions[m - 1]);
      hide Valid, After;
      LatestGrows(states[m - 1], actions[m - 1], id);
    }
  }

  /** While a request is in flight its record of when it was sent does not change. */
  lemma {:induction false} SentAtStays(states: seq<Live>, actions: seq<Action>, sent: nat, m: nat)
    requires IsRun(states, actions) && sent < m <= |actions| && actions[sent].Fire?
    requires forall i :: sent < i <= m ==> states[i].request.Some?
    ensures states[m].sentAt == states[sent].version
  {
    RunIsValid(states, actions, m - 1);
    assert Enabled(states[m - 1], actions[m - 1]) && states[m] == After(states[m - 1], actions[m - 1]);
    if sent < m - 1 {
      SentAtStays(states, actions, sent, m - 1);
      if actions[m - 1].Update? { NotedKeeps(states[m - 1], actions[m - 1].ids); }
    }
  }

  /** A verdict comes only from a request sent after the id's latest live update: none arrived
      while it was in flight. */
  lemma NoUpdateSinceSending(states: seq<Live>, actions: seq<Action>, sent: nat, replied: nat, id: string, k: nat)
    requires IsRun(states, actions) && sent < replied < |actions|
    requires actions[sent].Fire? && forall i :: sent < i <= replied ==> states[i].request.Some?
    requires id in Verdicts(states[replied], actions[replied])
    requires sent <= k < replied
    ensures !(actions[k].Update? && id in actions[k].ids)
  {
    RunIsValid(states, actions, replied);
    RunIsValid(states, actions, k);
    assert Enabled(states[replied], actions[replied]);
    VerdictIsCurrent(states[replied], actions[replied], id);
    SentAtStays(states, actions, sent, replied);
    hide Valid, Verdicts;
    if actions[k].Update? && id in actions[k].ids {
      assert Enabled(states[k], actions[k]) && states[k + 1] == After(states[k], actions[k]);
      hide After;
      LatestGrows(states[k], actions[k], id);
      LatestStaysAbove(states, actions, sent, k, id);
      LatestStaysAbove(states, actions, k + 1, replied, id);
    }
  }

  // ---- Waiting in line ----

  /** The id stands at place `k` or before. */
  ghost predicate StandsBy(p: Pending, id: string, k: nat) { exists i :: 0 <= i < |p| && i <= k && p[i].id == id }

  lemma {:induction false} PutKeepsPlace(p: Pending, id: string, version: int, x: string, k: nat)
    requires StandsBy(p, x, k)
    ensures StandsBy(Put(p, id, version), x, k)
  {
    var i :| 0 <= i < |p| && i <= k && p[i].id == x;
    var q := Put(p, id, version);
    if p[0].id == id || i == 0 {
      assert q[i].id == x;
    } else {
      assert p[1..][i - 1].id == x;
      PutKeepsPlace(p[1..], id, version, x, i - 1);
      var j :| 0 <= j < |q[1..]| && j <= i - 1 && Put(p[1..], id, version)[j].id == x;
      assert q[j + 1].id == x;
    }
  }

  lemma {:induction false} FilterKeepsPlace(p: Pending, keep: Entry -> bool, k: nat)
    requires k < |p| && keep(p[k])
    ensures StandsBy(Filter(p, keep), p[k].id, k)
  {
    var n := |p| - 1;
    if k == n {
      assert Filter(p, keep)[|Filter(p[..n], keep)|] == p[n];
    } else {
      FilterKeepsPlace(p[..n], keep, k);
      var q := Filter(p[..n], keep);
      var i :| 0 <= i < |q| && i <= k && q[i].id == p[k].id;
      assert Filter(p, keep)[i] == q[i];
    }
  }

  lemma {:induction false} NotedKeepsPlace(s: Live, ids: seq<string>, x: string, k: nat)
    requires StandsBy(s.pending, x, k)
    ensures StandsBy(Noted(s, ids).pending, x, k)
  {
    if ids != [] {
      var n := |ids| - 1;
      NotedKeepsPlace(s, ids[..n], x, k);
      hide StandsBy, Put;
      PutKeepsPlace(Noted(s, ids[..n]).pending, ids[n], Noted(s, ids[..n]).version + 1, x, k);
    }
  }

  /** No action moves a pending id back in line, not even its own updates. */
  lemma PlaceIsKept(s: Live, a: Action, id: string, k: nat)
    requires Valid(s) && Enabled(s, a) && StandsBy(s.pending, id, k) && HasId(After(s, a).pending, id)
    ensures StandsBy(After(s, a).pending, id, k)
  {
    var i :| 0 <= i < |s.pending| && i <= k && s.pending[i].id == id;
    match a
    case Update(ids) => NotedKeepsPlace(s, ids, id, k);
    case Fire => FilteredPlace(s, IsBuffered(s.buffered), i);
    case Reply(_) => if !s.disposed { FilteredPlace(s, IsUnsettled(s.request.value), i); }
    case _ =>
  }

  lemma FilteredPlace(s: Live, keep: Entry -> bool, i: nat)
    requires UniqueIds(s.pending) && i < |s.pending| && HasId(Filter(s.pending, keep), s.pending[i].id)
    ensures StandsBy(Filter(s.pending, keep), s.pending[i].id, i)
  {
    FilterHas(s.pending, keep);
    var e :| e in Filter(s.pending, keep) && e.id == s.pending[i].id;
    var j :| 0 <= j < |s.pending| && s.pending[j] == e;
    assert j == i;
    FilterKeepsPlace(s.pending, keep, i);
  }

  /** A request takes the first thousand in line that are still buffered. */
  lemma FirstInLineAreSent(s: Live, id: string)
    requires Valid(s) && s.timer && StandsBy(s.pending, id, 999) && id in s.buffered
    ensures var t := AfterFire(s); t.request.Some? && exists e :: e in t.request.value && e.id == id && e in t.pending
  {
    var i :| 0 <= i < |s.pending| && i <= 999 && s.pending[i].id == id;
    FilterKeepsPlace(s.pending, IsBuffered(s.buffered), i);
    var q := Filter(s.pending, IsBuffered(s.buffered));
    var j :| 0 <= j < |q| && j <= i && q[j].id == id;
    assert FirstOf(q)[j] == q[j];
  }

  // ---- The effect ----

  function SettledBy(s: Live, e: Entry, result: set<string>): Live {
    if e !in s.pending then s
    else s.(pending := Filter(s.pending, IsUnsettled([e])),
            matched := if e.id in result then s.matched + {e.id} else s.matched - {e.id})
  }

  function SettledAll(s: Live, batch: seq<Entry>, result: set<string>): Live {
    if batch == [] then s
    else SettledBy(SettledAll(s, batch[..|batch| - 1], result), batch[|batch| - 1], result)
  }

  /** Entry by entry or all at once. */
  lemma {:induction false} SettleAllSettles(s: Live, batch: seq<Entry>, result: set<string>)
    ensures SettledAll(s, batch, result) == s.(pending := Filter(s.pending, IsUnsettled(batch)),
      matched := (s.matched - Settled(s.pending, batch)) + (Settled(s.pending, batch) * result))
    ensures forall delay ::
      SettledAll(s.(retryDelay := delay), batch, result) == SettledAll(s, batch, result).(retryDelay := delay)
  {
    if batch == [] {
      StartsUnsettled(s.pending);
    } else {
      var n := |batch| - 1;
      SettleAllSettles(s, batch[..n], result);
      SettledMore(s.pending, batch, n);
      assert batch[..n + 1] == batch;
      hide Settled, Filter;
    }
  }

  class Effect {
    var disposed: bool
    var timer: bool
    var request: Option<seq<Entry>>
    var version: int
    var retryDelay: int
    var pending: Pending
    var buffered: set<string>
    var matched: set<string>
    ghost var latest: map<string, int>
    ghost var sentAt: int

    ghost function View(): Live reads this {
      Live(disposed, timer, request, version, retryDelay, pending, buffered, matched, latest, sentAt)
    }

    constructor (buffered: set<string>, matched: set<string>)
      ensures View() == Started(buffered, matched) && Valid(View())
    {
      disposed, timer, request, version, retryDelay, pending := false, false, None, 0, FIRST_DELAY, [];
      this.buffered, this.matched, latest, sentAt := buffered, matched, map[], 0;
    }

    method Schedule()
      modifies this
      ensures View() == Scheduled(old(View()))
    {
      if !disposed && request.None? && !timer && pending != [] { timer := true; }
    }

    method OnUpdate(ids: seq<string>)
      requires Valid(View()) && !disposed
      modifies this
      ensures View() == After(old(View()), Update(ids)) && Valid(View())
    {
      StepKeepsValid(View(), Update(ids));
      hide Valid, Put;
      ghost var start := View();
      for i := 0 to |ids|
        invariant View() == Noted(start, ids[..i])
      {
        assert ids[..i + 1][..i] == ids[..i];
        version := version + 1;
        pending := Put(pending, ids[i], version);
        latest := latest[ids[i] := version];
      }
      assert ids[..|ids|] == ids;
      Schedule();
    }

    /** The timer's callback up to the request it awaits. */
    method Run()
      requires Valid(View()) && timer
      modifies this
      ensures View() == After(old(View()), Fire) && Valid(View())
    {
      StepKeepsValid(View(), Fire);
      hide Valid;
      ghost var start := View();
      timer := false;
      var kept: Pending := [];
      for i := 0 to |pending|
        invariant View() == start.(timer := false)
        invariant kept == Filter(pending[..i], IsBuffered(buffered))
      {
        assert pending[..i + 1][..i] == pending[..i];
        if pending[i].id in buffered { kept := kept + [pending[i]]; }
      }
      assert pending[..|pending|] == pending;
      pending := kept;
      var batch := FirstOf(pending);
      if batch != [] {
        request, sentAt := Some(batch), version;
      } else {
        Schedule();
      }
    }

    method OnReply(result: set<string>)
      requires Valid(View()) && request.Some?
      modifies this
      ensures View() == After(old(View()), Reply(result)) && Valid(View())
    {
      StepKeepsValid(View(), Reply(result));
      if !disposed { Settle(result); }
      request := None;
      Schedule();
    }

    /** Writes the verdicts and drops what they cover. */
    method Settle(result: set<string>)
      requires Valid(View()) && request.Some?
      modifies this
      ensures var settled := Settled(old(pending), old(request.value));
        View() == old(View()).(retryDelay := FIRST_DELAY,
                               pending := Filter(old(pending), IsUnsettled(old(request.value))),
          matched := (old(matched) - settled) + (settled * result))
    {
      hide Valid;
      var batch := request.value;
      SettleAllSettles(View(), batch, result);
      retryDelay := FIRST_DELAY;
      ghost var start := View();
      hide Settled, Filter, SettledBy;
      for i := 0 to |batch|
        invariant View() == SettledAll(start, batch[..i], result)
      {
        assert batch[..i + 1][..i] == batch[..i];
        SettleEntry(batch[i], result);
      }
      assert batch[..|batch|] == batch;
    }

    /** A reply counts for an id only in the version it was asked in. */
    method SettleEntry(e: Entry, result: set<string>)
      modifies this
      ensures View() == SettledBy(old(View()), e, result)
    {
      if e !in pending { return; }
      pending := Filter(pending, IsUnsettled([e]));
      if e.id in result { matched := matched + {e.id}; } else { matched := matched - {e.id}; }
    }

    method OnFailure()
      requires Valid(View()) && request.Some?
      modifies this
      ensures View() == After(old(View()), Fail) && Valid(View())
    {
      StepKeepsValid(View(), Fail);
      retryDelay := if retryDelay * 2 < LAST_DELAY then retryDelay * 2 else LAST_DELAY;
      request := None;
      Schedule();
    }

    method Cleanup()
      requires Valid(View()) && !disposed
      modifies this
      ensures View() == After(old(View()), Dispose) && Valid(View())
    {
      disposed, timer := true, false;
    }
  }

  lemma {:induction false} StartsUnsettled(p: Pending)
    ensures Filter(p, IsUnsettled([])) == p && Settled(p, []) == {}
  {
    if p != [] {
      StartsUnsettled(p[..|p| - 1]);
      assert p[..|p| - 1] + [p[|p| - 1]] == p;
    }
  }

  /** One more entry of the batch: still pending as sent, it is settled; otherwise nothing changes. */
  lemma SettledMore(p: Pending, batch: seq<Entry>, i: nat)
    requires i < |batch|
    ensures var e, now, next := batch[i], Filter(p, IsUnsettled(batch[..i])), Filter(p, IsUnsettled(batch[..i + 1]));
      && (e in now ==>
            next == Filter(now, IsUnsettled([e])) && Settled(p, batch[..i + 1]) == Settled(p, batch[..i]) + {e.id})
      && (e !in now ==> next == now && Settled(p, batch[..i + 1]) == Settled(p, batch[..i]))
  {
    var e, before, after := batch[i], batch[..i], batch[..i + 1];
    assert after == before + [e];
    FilterHas(p, IsUnsettled(before));
    FilterCompose(p, IsUnsettled(before), IsUnsettled([e]), IsUnsettled(after));
    if e !in Filter(p, IsUnsettled(before)) { UnsettledSame(p, before, e, after); }
  }

  lemma {:induction false} UnsettledSame(p: Pending, before: seq<Entry>, e: Entry, after: seq<Entry>)
    requires after == before + [e] && (e in p ==> e in before)
    ensures Filter(p, IsUnsettled(before)) == Filter(p, IsUnsettled(after))
  {
    if p != [] {
      assert p == p[..|p| - 1] + [p[|p| - 1]];
      UnsettledSame(p[..|p| - 1], before, e, after);
    }
  }
}
