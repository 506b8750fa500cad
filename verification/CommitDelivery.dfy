// Delivery of committed batches: a bounded queue, a delivery goroutine that groups metric commits, and barriers.
module CommitDelivery {
  import opened Filters
  import opened Order

  const COMMIT_QUEUE_SIZE: nat := 256
  const METRIC_COMMIT_BATCH_SIZE: nat := 16

  datatype Kind = Traces | Metrics | Logs
  datatype Event = Event(kind: Kind, id: int)
  datatype Job = Commit(event: Event) | Barrier(id: int)

  /** Where the delivery goroutine stands between two channel operations or callbacks. */
  datatype Phase = Receiving | Draining | Delivering(thenExit: bool) | Exited

  /**
   * The writer's and the delivery goroutine's shared and private state. `accepted` lists the events the queue took,
   * `waiting` is the barrier the writer is blocked on, `released` the barriers closed so far.
   */
  datatype Pipeline = Pipeline(
    batching: bool, queue: seq<Job>, closed: bool,
    pending: Option<Job>, jobs: seq<Event>, phase: Phase,
    delivered: seq<seq<Event>>, accepted: seq<Event>, waiting: Option<int>, released: seq<int>)

  function Opened(batching: bool): Pipeline {
    Pipeline(batching, [], false, None, [], Receiving, [], [], None, [])
  }

  /** One atomic action of either goroutine. */
  datatype Action = Dispatch(event: Event) | Await(barrier: int) | Close | Advance

  predicate Enabled(p: Pipeline, a: Action) {
    match a
    case Dispatch(_) => !p.closed && p.waiting.None?
    case Await(_) => !p.closed && p.waiting.None? && |p.queue| < COMMIT_QUEUE_SIZE
    case Close => !p.closed && p.waiting.None?
    case Advance =>
      if p.phase.Receiving? then p.pending.Some? || p.queue != [] || p.closed else !p.phase.Exited?
  }

  /** A full queue drops the event; nothing ever blocks the writer here. */
  function AfterDispatch(p: Pipeline, e: Event): Pipeline {
    if |p.queue| < COMMIT_QUEUE_SIZE then p.(queue := p.queue + [Commit(e)], accepted := p.accepted + [e]) else p
  }

  function AfterAwait(p: Pipeline, id: int): Pipeline {
    p.(queue := p.queue + [Barrier(id)], waiting := Some(id))
  }

  /** What happens to a job once it is taken off the queue or the pending slot. */
  function AfterTaking(p: Pipeline, job: Job): Pipeline {
    match job
    case Barrier(id) => p.(waiting := None, released := p.released + [id])
    case Commit(e) => p.(jobs := [e], phase := if p.batching && e.kind.Metrics? then Draining else Delivering(false))
  }

  /** One more metric commit if there is one now; anything else waits in the pending slot. */
  function AfterDraining(p: Pipeline): Pipeline {
    if |p.jobs| >= METRIC_COMMIT_BATCH_SIZE then p.(phase := Delivering(false))
    else if p.queue == [] then p.(phase := Delivering(p.closed))
    else
      var next, rest := p.queue[0], p.queue[1..];
      if next.Barrier? || !next.event.kind.Metrics?
      then p.(queue := rest, pending := Some(next), phase := Delivering(false))
      else p.(queue := rest, jobs := p.jobs + [next.event])
  }

  function AfterAdvance(p: Pipeline): Pipeline {
    match p.phase
    case Receiving =>
      if p.pending.Some? then AfterTaking(p.(pending := None), p.pending.value)
      else if p.queue != [] then AfterTaking(p.(queue := p.queue[1..]), p.queue[0])
      else if p.closed then p.(phase := Exited)
      else p
    case Draining => AfterDraining(p)
    case Delivering(thenExit) =>
      p.(delivered := p.delivered + [p.jobs], jobs := [], phase := if thenExit then Exited else Receiving)
    case Exited => p
  }

  function After(p: Pipeline, a: Action): Pipeline {
    match a
    case Dispatch(e) => AfterDispatch(p, e)
    case Await(id) => AfterAwait(p, id)
    case Close => p.(closed := true)
    case Advance => AfterAdvance(p)
  }

  // ---- What always holds ----

  function EventsOf(jobs: seq<Job>): seq<Event> {
    if jobs == [] then []
    else (if jobs[0].Commit? then [jobs[0].event] else []) + EventsOf(jobs[1..])
  }

  /** Everything not yet handed over, in order: the batch in hand, the pending slot, the queue. */
  function Ahead(p: Pipeline): seq<Job> { (if p.pending.Some? then [p.pending.value] else []) + p.queue }

  predicate AllMetrics(batch: seq<Event>) { forall i :: 0 <= i < |batch| ==> batch[i].kind.Metrics? }

  /** One event of any kind, or up to sixteen metric ones. */
  predicate IsBatch(batch: seq<Event>, batching: bool) {
    |batch| == 1 || (batching && 1 <= |batch| <= 16 && AllMetrics(batch))
  }

  predicate IsInOrder(p: Pipeline) { Flat(p.delivered) + p.jobs + EventsOf(Ahead(p)) == p.accepted }

  /** The only barrier under way is the one the writer waits for, and it is the last thing queued. */
  predicate HasLastBarrier(p: Pipeline) {
    var ahead := Ahead(p);
    && (forall i :: 0 <= i < |ahead| && ahead[i].Barrier? ==> i == |ahead| - 1 && p.waiting == Some(ahead[i].id))
    && (p.waiting.Some? ==> ahead != [] && ahead[|ahead| - 1] == Barrier(p.waiting.value))
  }

  predicate IsPhased(p: Pipeline) {
    match p.phase
    case Receiving => p.jobs == []
    case Draining => p.batching && IsBatch(p.jobs, p.batching) && AllMetrics(p.jobs) && p.pending.None?
    case Delivering(thenExit) =>
      IsBatch(p.jobs, p.batching) && (thenExit ==> p.closed && p.queue == [] && p.pending.None?)
    case Exited => p.closed && p.jobs == [] && p.queue == [] && p.pending.None?
  }

  predicate Valid(p: Pipeline) {
    && |p.queue| <= 256
    && (p.closed ==> p.waiting.None?)
    && IsInOrder(p) && HasLastBarrier(p) && IsPhased(p)
    && forall i :: 0 <= i < |p.delivered| ==> IsBatch(p.delivered[i], p.batching)
  }

  lemma {:induction false} EventsAppend(a: seq<Job>, b: seq<Job>)
    ensures EventsOf(a + b) == EventsOf(a) + EventsOf(b)
  {
    hide EventsOf;
    if a == [] {
      assert a + b == b;
      NoEvents();
    } else {
      var rest := a[1..];
      EventsAppend(rest, b);
      EventsFirst(a[0], rest);
      EventsFirst(a[0], rest + b);
      assert a == [a[0]] + rest && a + b == [a[0]] + (rest + b);
    }
  }

  lemma NoEvents()
    ensures EventsOf([]) == []
  {
  }

  lemma EventsFirst(job: Job, rest: seq<Job>)
    ensures EventsOf([job] + rest) == (if job.Commit? then [job.event] else []) + EventsOf(rest)
  {
    assert ([job] + rest)[1..] == rest;
  }

  lemma OpenedIsValid(batching: bool)
    ensures Valid(Opened(batching))
  {
  }

  lemma QueueGrows(p: Pipeline, job: Job)
    ensures var q := p.(queue := p.queue + [job]);
      Ahead(q) == Ahead(p) + [job] && EventsOf(Ahead(q)) == EventsOf(Ahead(p)) + EventsOf([job])
  {
    assert Ahead(p.(queue := p.queue + [job])) == Ahead(p) + [job];
    EventsAppend(Ahead(p), [job]);
  }

  lemma DispatchKeepsValid(p: Pipeline, e: Event)
    requires Valid(p) && Enabled(p, Dispatch(e))
    ensures Valid(AfterDispatch(p, e))
  {
    QueueGrows(p, Commit(e));
    assert [Commit(e)][1..] == [];
  }

  lemma AwaitKeepsValid(p: Pipeline, id: int)
    requires Valid(p) && Enabled(p, Await(id))
    ensures Valid(AfterAwait(p, id))
  {
    QueueGrows(p, Barrier(id));
    assert [Barrier(id)][1..] == [];
  }

  lemma TakingKeepsOrder(p: Pipeline, job: Job, rest: seq<Job>, q: Pipeline)
    requires IsInOrder(p) && p.jobs == [] && Ahead(p) == [job] + rest
    requires q.pending.None? && q.queue == rest && q == p.(pending := None, queue := q.queue)
    ensures IsInOrder(AfterTaking(q, job))
  {
    hide Flat, EventsOf;
    assert Ahead(AfterTaking(q, job)) == rest;
    EventsFirst(job, rest);
    var done, later := Flat(p.delivered), EventsOf(rest);
    if job.Commit? {
      assert done + [] + ([job.event] + later) == done + [job.event] + later;
    } else {
      assert done + [] + ([] + later) == done + [] + later;
    }
  }

  lemma TakingKeepsBarrier(p: Pipeline, job: Job, rest: seq<Job>, q: Pipeline)
    requires HasLastBarrier(p) && Ahead(p) == [job] + rest
    requires q.pending.None? && q.queue == rest && q == p.(pending := None, queue := q.queue)
    ensures HasLastBarrier(AfterTaking(q, job))
  {
    var after := AfterTaking(q, job);
    assert Ahead(after) == rest == Ahead(p)[1..] && Ahead(p)[0] == job;
  }

  lemma TakingKeepsValid(p: Pipeline, job: Job, rest: seq<Job>, q: Pipeline)
    requires Valid(p) && p.phase.Receiving? && Ahead(p) == [job] + rest
    requires q.pending.None? && q.queue == rest && q == p.(pending := None, queue := q.queue)
    requires |rest| <= COMMIT_QUEUE_SIZE
    ensures Valid(AfterTaking(q, job))
  {
    TakingKeepsOrder(p, job, rest, q);
    TakingKeepsBarrier(p, job, rest, q);
    hide IsInOrder, HasLastBarrier;
    assert job.Commit? ==> IsBatch([job.event], p.batching);
  }

  lemma ReceivingKeepsValid(p: Pipeline)
    requires Valid(p) && p.phase.Receiving? && Enabled(p, Advance)
    ensures Valid(AfterAdvance(p))
  {
    hide Flat, EventsOf;
    if p.pending.Some? {
      TakingKeepsValid(p, p.pending.value, p.queue, p.(pending := None));
    } else if p.queue != [] {
      assert p.queue == [p.queue[0]] + p.queue[1..];
      TakingKeepsValid(p, p.queue[0], p.queue[1..], p.(queue := p.queue[1..]));
    } else {
      assert Ahead(AfterAdvance(p)) == Ahead(p);
    }
  }

  lemma DeliveringKeepsValid(p: Pipeline)
    requires Valid(p) && p.phase.Delivering?
    ensures Valid(AfterAdvance(p))
  {
    hide EventsOf;
    var after := AfterAdvance(p);
    assert after.delivered[..|p.delivered|] == p.delivered;
    assert Ahead(after) == Ahead(p);
  }

  lemma AdvanceKeepsValid(p: Pipeline)
    requires Valid(p) && Enabled(p, Advance)
    ensures Valid(AfterAdvance(p))
  {
    match p.phase
    case Receiving => ReceivingKeepsValid(p);
    case Draining => DrainingKeepsValid(p);
    case Delivering(_) => DeliveringKeepsValid(p);
    case Exited =>
  }

  lemma DrainingKeepsOrder(p: Pipeline)
    requires IsInOrder(p) && p.pending.None?
    ensures IsInOrder(AfterDraining(p))
  {
    hide Flat, EventsOf;
    var after := AfterDraining(p);
    if |p.jobs| < METRIC_COMMIT_BATCH_SIZE && p.queue != [] {
      var next, rest := p.queue[0], p.queue[1..];
      assert Ahead(p) == p.queue == [next] + rest;
      if next.Barrier? || !next.event.kind.Metrics? {
        assert Ahead(after) == Ahead(p);
      } else {
        assert Ahead(after) == rest;
        EventsFirst(next, rest);
        assert p.jobs + ([next.event] + EventsOf(rest)) == p.jobs + [next.event] + EventsOf(rest);
        assert Flat(p.delivered) + p.jobs + [next.event] == Flat(p.delivered) + (p.jobs + [next.event]);
      }
    } else {
      assert Ahead(after) == Ahead(p);
    }
  }

  lemma RestKeepsBarrier(p: Pipeline, q: Pipeline, job: Job)
    requires HasLastBarrier(p) && q.waiting == p.waiting
    requires Ahead(q) == Ahead(p) || (job.Commit? && Ahead(p) == [job] + Ahead(q))
    ensures HasLastBarrier(q)
  {
    hide Ahead;
    var before, after := Ahead(p), Ahead(q);
    if after != before {
      assert forall i :: 0 <= i < |after| ==> after[i] == before[i + 1];
    }
  }

  lemma DrainingKeepsBarrier(p: Pipeline)
    requires HasLastBarrier(p) && p.pending.None? && p.queue != []
    ensures HasLastBarrier(AfterDraining(p))
  {
    hide HasLastBarrier;
    assert p.queue == [p.queue[0]] + p.queue[1..];
    RestKeepsBarrier(p, AfterDraining(p), p.queue[0]);
  }

  lemma EmptyKeepsBarrier(p: Pipeline)
    requires HasLastBarrier(p) && p.pending.None? && p.queue == []
    ensures HasLastBarrier(AfterDraining(p))
  {
  }

  lemma DrainingKeepsPhase(p: Pipeline)
    requires IsPhased(p) && p.phase.Draining?
    ensures IsPhased(AfterDraining(p))
  {
  }

  lemma DrainingKeepsValid(p: Pipeline)
    requires Valid(p) && p.phase.Draining?
    ensures Valid(AfterDraining(p))
  {
    DrainingKeepsOrder(p);
    if p.queue == [] { EmptyKeepsBarrier(p); } else { DrainingKeepsBarrier(p); }
    DrainingKeepsPhase(p);
    hide IsInOrder, HasLastBarrier, IsPhased, IsBatch;
  }

  lemma StepKeepsValid(p: Pipeline, a: Action)
    requires Valid(p) && Enabled(p, a)
    ensures Valid(After(p, a))
  {
    match a
    case Dispatch(e) => DispatchKeepsValid(p, e);
    case Await(id) => AwaitKeepsValid(p, id);
    case Close => assert Ahead(After(p, a)) == Ahead(p);
    case Advance => AdvanceKeepsValid(p);
  }

  // ---- Runs ----

  /** `states` is what a run through `actions`, in any interleaving of the goroutines, passes through. */
  ghost predicate IsRun(states: seq<Pipeline>, actions: seq<Action>) {
    && |states| == |actions| + 1 && states[0] == Opened(states[0].batching)
    && forall i :: 0 <= i < |actions| ==>
      Enabled(states[i], actions[i]) && states[i + 1] == After(states[i], actions[i])
  }

  lemma {:induction false} RunIsValid(states: seq<Pipeline>, actions: seq<Action>, n: nat)
    requires IsRun(states, actions) && n <= |actions|
    ensures Valid(states[n])
  {
    if n == 0 {
      OpenedIsValid(states[0].batching);
    } else {
      hide Valid, After, Enabled;
      RunIsValid(states, actions, n - 1);
      assert Enabled(states[n - 1], actions[n - 1]) && states[n] == After(states[n - 1], actions[n - 1]);
      StepKeepsValid(states[n - 1], actions[n - 1]);
    }
  }

  /** The events a run offers that find room, in order. */
  function Accepted(states: seq<Pipeline>, actions: seq<Action>): seq<Event>
    requires |states| >= |actions|
  {
    if actions == [] then []
    else
      var n := |actions| - 1;
      Accepted(states[..n], actions[..n])
      + (if actions[n].Dispatch? && |states[n].queue| < 256 then [actions[n].event] else [])
  }

  lemma {:induction false} AcceptedIsRecorded(states: seq<Pipeline>, actions: seq<Action>, n: nat)
    requires IsRun(states, actions) && n <= |actions|
    ensures states[n].accepted == Accepted(states[..n], actions[..n])
  {
    if n > 0 {
      AcceptedIsRecorded(states, actions, n - 1);
      assert Enabled(states[n - 1], actions[n - 1]) && states[n] == After(states[n - 1], actions[n - 1]);
      assert states[..n][..n - 1] == states[..n - 1] && actions[..n][..n - 1] == actions[..n - 1];
    }
  }

  /**
   * At every point of every run the deliveries so far are a prefix of the accepted events in commit order: nothing is
   * lost, repeated or reordered; and each delivery is one event or up to sixteen metric ones.
   */
  lemma DeliveriesFollowCommits(states: seq<Pipeline>, actions: seq<Action>, n: nat)
    requires IsRun(states, actions) && n <= |actions|
    ensures Flat(states[n].delivered) <= Accepted(states[..n], actions[..n])
    ensures forall i :: 0 <= i < |states[n].delivered| ==> IsBatch(states[n].delivered[i], states[n].batching)
  {
    RunIsValid(states, actions, n);
    AcceptedIsRecorded(states, actions, n);
    var p := states[n];
    assert Flat(p.delivered) + p.jobs + EventsOf(Ahead(p)) == p.accepted;
  }

  /** Grouping leaves nothing behind: a batch is handed over only when it is full or no metric commit comes next. */
  lemma BatchesAreGreedy(p: Pipeline)
    requires Valid(p) && Enabled(p, Advance)
    ensures var q := AfterAdvance(p);
      && (p.phase.Receiving? && q.phase.Delivering? ==> !p.batching || !q.jobs[0].kind.Metrics?)
      && (p.phase.Draining? && q.phase.Delivering? ==>
            && q.jobs == p.jobs
            && (|p.jobs| == 16 || p.queue == [] || p.queue[0].Barrier? || !p.queue[0].event.kind.Metrics?))
      && (p.phase.Draining? && q.phase.Draining? ==>
            p.queue != [] && p.queue[0].Commit? && q.jobs == p.jobs + [p.queue[0].event])
  {
    hide IsInOrder, HasLastBarrier;
  }

  /** A barrier is released only when every event accepted before it has been delivered. */
  lemma BarrierMeansDelivered(p: Pipeline)
    requires Valid(p) && Enabled(p, Advance) && AfterAdvance(p).released != p.released
    ensures Flat(p.delivered) == p.accepted
    ensures p.waiting.Some? && AfterAdvance(p).released == p.released + [p.waiting.value] &&
      AfterAdvance(p).waiting.None?
  {
    var ahead := Ahead(p);
    assert ahead[0].Barrier? && |ahead| == 1;
    assert ahead[1..] == [] && EventsOf(ahead) == [];
  }

  lemma {:induction false} WaitingHoldsBack(states: seq<Pipeline>, actions: seq<Action>, n: nat, m: nat)
    requires IsRun(states, actions) && n <= m <= |actions|
    requires forall i :: n <= i <= m ==> states[i].waiting.Some?
    ensures states[m].accepted == states[n].accepted && states[m].waiting == states[n].waiting
  {
    if n < m {
      WaitingHoldsBack(states, actions, n, m - 1);
      assert Enabled(states[m - 1], actions[m - 1]) && states[m] == After(states[m - 1], actions[m - 1]);
    }
  }

  /** While the writer waits nothing is added, so the release vouches for everything accepted
      when the barrier was sent. */
  lemma SyncWaitsForDelivery(states: seq<Pipeline>, actions: seq<Action>, sent: nat, done: nat)
    requires IsRun(states, actions) && sent < done < |actions|
    requires actions[sent].Await? && actions[done].Advance?
    requires forall i :: sent < i <= done ==> states[i].waiting.Some?
    requires states[done + 1].waiting.None?
    ensures Flat(states[done].delivered) == states[sent].accepted
    ensures states[done + 1].released == states[done].released + [actions[sent].barrier]
  {
    RunIsValid(states, actions, done);
    WaitingHoldsBack(states, actions, sent + 1, done);
    assert Enabled(states[sent], actions[sent]) && states[sent + 1] == After(states[sent], actions[sent]);
    assert Enabled(states[done], actions[done]) && states[done + 1] == After(states[done], actions[done]);
    var p := states[done];
    hide Flat, EventsOf, IsPhased;
    WaitingEndsInRelease(p);
    BarrierMeansDelivered(p);
  }

  lemma WaitingEndsInRelease(p: Pipeline)
    requires Enabled(p, Advance) && p.waiting.Some? && AfterAdvance(p).waiting.None?
    ensures AfterAdvance(p).released != p.released
  {
    assert |AfterAdvance(p).released| == |p.released| + 1;
  }

  /** The delivery goroutine is never stuck with work left. */
  lemma NeverStuck(p: Pipeline)
    requires Valid(p) && (Flat(p.delivered) != p.accepted || p.waiting.Some?)
    ensures Enabled(p, Advance)
  {
    if p.pending.None? && p.queue == [] { assert Ahead(p) == []; }
  }

  // ---- Closing ----

  function Work(p: Pipeline): nat {
    4 * |p.queue| + (if p.pending.Some? then 3 else 0)
    + (match p.phase case Receiving => 1 case Draining => 3 case Delivering(_) => 2 case Exited => 0)
  }

  lemma AdvanceWorks(p: Pipeline)
    requires Valid(p) && Enabled(p, Advance)
    ensures Work(AfterAdvance(p)) < Work(p)
  {
    hide IsInOrder, HasLastBarrier, IsBatch;
  }

  /** The delivery goroutine left alone until it returns. */
  ghost function Drained(p: Pipeline): Pipeline
    requires Valid(p) && p.closed
    decreases Work(p)
  {
    if p.phase.Exited? then p
    else
      AdvanceKeepsValid(p);
      AdvanceWorks(p);
      ClosedStays(p);
      Drained(AfterAdvance(p))
  }

  lemma ClosedStays(p: Pipeline)
    ensures AfterAdvance(p).closed == p.closed && AfterAdvance(p).accepted == p.accepted
  {
  }

  /** After closing, the goroutine delivers everything accepted and returns. */
  lemma {:induction false} CloseDrains(p: Pipeline)
    requires Valid(p) && p.closed
    ensures Drained(p).phase.Exited? && Flat(Drained(p).delivered) == p.accepted
    decreases Work(p)
  {
    if p.phase.Exited? {
      assert Ahead(p) == [];
    } else {
      AdvanceKeepsValid(p);
      AdvanceWorks(p);
      ClosedStays(p);
      CloseDrains(AfterAdvance(p));
    }
  }

  // ---- The goroutines ----

  class Deliveries {
    const batching: bool
    var queue: seq<Job>
    var closed: bool
    var pending: Option<Job>
    var jobs: seq<Event>
    var phase: Phase
    var delivered: seq<seq<Event>>
    ghost var accepted: seq<Event>
    var waiting: Option<int>
    var released: seq<int>

    ghost function View(): Pipeline reads this {
      Pipeline(batching, queue, closed, pending, jobs, phase, delivered, accepted, waiting, released)
    }

    constructor (batching: bool)
      ensures View() == Opened(batching)
    {
      this.batching, queue, closed, pending, jobs := batching, [], false, None, [];
      phase, delivered, accepted, waiting, released := Receiving, [], [], None, [];
    }

    /** The writer after a commit. */
    method DispatchCommit(e: Event) returns (taken: bool)
      requires Valid(View()) && Enabled(View(), Dispatch(e))
      modifies this
      ensures View() == After(old(View()), Dispatch(e)) && Valid(View())
      ensures taken <==> |old(queue)| < 256
    {
      DispatchKeepsValid(View(), e);
      taken := |queue| < COMMIT_QUEUE_SIZE;
      if taken {
        queue := queue + [Commit(e)];
        accepted := accepted + [e];
      }
    }

    /** The writer sending a barrier, once there is room for it. */
    method AwaitCommitDrain(id: int)
      requires Valid(View()) && Enabled(View(), Await(id))
      modifies this
      ensures View() == After(old(View()), Await(id)) && Valid(View())
    {
      AwaitKeepsValid(View(), id);
      queue, waiting := queue + [Barrier(id)], Some(id);
    }

    method CloseQueue()
      requires Valid(View()) && Enabled(View(), Close)
      modifies this
      ensures View() == After(old(View()), Close) && Valid(View())
    {
      StepKeepsValid(View(), Close);
      closed := true;
    }

    /** A barrier is closed at once; a commit starts a batch. */
    method Take(job: Job)
      modifies this
      ensures View() == AfterTaking(old(View()), job)
    {
      if job.Barrier? {
        released, waiting := released + [job.id], None;
        return;
      }
      jobs := [job.event];
      phase := if batching && job.event.kind.Metrics? then Draining else Delivering(false);
    }

    /** The receive at the head of the loop, the pending job first. */
    method Receive()
      requires phase.Receiving? && Enabled(View(), Advance)
      modifies this
      ensures View() == AfterAdvance(old(View()))
    {
      var job: Job;
      if pending.Some? {
        job, pending := pending.value, None;
      } else if queue != [] {
        job, queue := queue[0], queue[1..];
      } else {
        phase := Exited;
        return;
      }
      Take(job);
    }

    /** The receive that never waits, inside the metric batch. */
    method Drain()
      requires phase.Draining?
      modifies this
      ensures View() == AfterAdvance(old(View()))
    {
      if |jobs| >= METRIC_COMMIT_BATCH_SIZE { phase := Delivering(false); return; }
      if queue == [] { phase := Delivering(closed); return; }
      var next := queue[0];
      queue := queue[1..];
      if next.Barrier? || !next.event.kind.Metrics? {
        pending, phase := Some(next), Delivering(false);
      } else {
        jobs := jobs + [next.event];
      }
    }

    /** The delivery goroutine up to its next channel operation or callback. */
    method Step()
      requires Valid(View()) && Enabled(View(), Advance)
      modifies this
      ensures View() == After(old(View()), Advance) && Valid(View())
    {
      AdvanceKeepsValid(View());
      hide Valid;
      if phase.Receiving? {
        Receive();
      } else if phase.Draining? {
        Drain();
      } else {
        delivered, jobs, phase := delivered + [jobs], [], if phase.thenExit then Exited else Receiving;
      }
    }

    /** What is left of the delivery goroutine's loop once the queue is closed. */
    method RunCommits()
      requires Valid(View()) && closed
      modifies this
      ensures Valid(View()) && View() == Drained(old(View()))
      ensures phase.Exited? && Flat(delivered) == old(accepted)
    {
      CloseDrains(View());
      ghost var start := View();
      while !phase.Exited?
        invariant Valid(View()) && closed
        invariant Drained(View()) == Drained(start)
        decreases Work(View())
      {
        hide Valid;
        AdvanceWorks(View());
        ClosedStays(View());
        Step();
      }
    }
  }
}
