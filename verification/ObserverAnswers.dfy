/** What each back-pressure policy answers, and what the observer is handed, over whole runs. */
module ObserverAnswers {
  import opened Observer

  // ---------------------------------------------------------------- one critical section

  /** A dispatch call's critical section concerns its own call, the queue and two counters only. */
  predicate OnlyCallChanged(s: State, t: State, d: nat) {
    && |t.calls| == |s.calls|
    && (forall e :: 0 <= e < |s.calls| && e != d ==> t.calls[e] == s.calls[e])
    && t.closed == s.closed && t.notEmpty == s.notEmpty && t.notFull == s.notFull
    && t.worker == s.worker && t.shutdown == s.shutdown
    && t.delivered == s.delivered && t.failed == s.failed && t.taken == s.taken && t.positions == s.positions
  }

  /** The event has joined the queue, after as many of the oldest as were evicted. */
  predicate Joined(s: State, t: State, d: nat, evicted: nat) {
    && evicted <= |s.queue|
    && t.queue == s.queue[evicted..] + [d] && t.accepted == s.accepted + [d]
    && t.enqueued == s.enqueued + 1 && t.droppedOldest == s.droppedOldest + evicted
    && t.droppedNewest == s.droppedNewest
  }

  /** Nothing joined the queue; `refused` events were counted as dropped. */
  predicate KeptOut(s: State, t: State, refused: nat) {
    && t.queue == s.queue && t.accepted == s.accepted
    && t.enqueued == s.enqueued && t.droppedOldest == s.droppedOldest
    && t.droppedNewest == s.droppedNewest + refused
  }

  predicate HasRoom(cfg: Config, s: State) {
    !s.closed && |s.queue| < cfg.capacity
  }

  predicate IsFull(cfg: Config, s: State) {
    !s.closed && |s.queue| >= cfg.capacity
  }

  /** The answer of a dispatch call's critical section, by the state it finds and the policy. */
  lemma LockAnswers(cfg: Config, s: State, d: nat)
    requires cfg.capacity > 0 && Enabled(s, CallLock(d))
    ensures var t := Apply(cfg, s, CallLock(d));
      && OnlyCallChanged(s, t, d)
      && (s.closed ==> t.calls[d] == Returned(Closed) && KeptOut(s, t, 0))
      && (HasRoom(cfg, s) ==> t.calls[d] == Signalling(Enqueued) && Joined(s, t, d, 0))
      && (IsFull(cfg, s) && cfg.policy == Block ==>
            t.calls[d] == Waiting(s.calls[d].created) && KeptOut(s, t, 0))
      && (IsFull(cfg, s) && cfg.policy == DropNewest ==> t.calls[d] == Returned(DroppedNewest) && KeptOut(s, t, 1))
      && (IsFull(cfg, s) && cfg.policy == DropOldest ==>
            t.calls[d] == Signalling(DroppedOldest) && Joined(s, t, d, 1))
  {
  }

  // ---------------------------------------------------------------- no suspension without blocking

  /** The call is suspended, or about to be, or has just been. */
  predicate Suspended(c: Call) {
    c.Waiting? || c.Parked? || c.Woken?
  }

  ghost predicate NoneSuspended(s: State) {
    forall d :: 0 <= d < |s.calls| ==> !Suspended(s.calls[d])
  }

  lemma NoneSuspendedStep(cfg: Config, s: State, step: Step)
    requires Enabled(s, step) && NoneSuspended(s) && cfg.policy != Block
    ensures NoneSuspended(Apply(cfg, s, step))
  {
    assert forall d :: 0 <= d < |s.calls| && s.calls[d].Parked? ==> Suspended(s.calls[d]);
  }

  /** Unless the policy is to block, no dispatch call is ever suspended. */
  lemma {:induction false} NeverSuspended(cfg: Config, n: nat, states: seq<State>, steps: seq<Step>, i: nat)
    requires IsRun(cfg, n, states, steps) && i < |states| && cfg.policy != Block
    ensures NoneSuspended(states[i])
  {
    if i == 0 {
    } else {
      NeverSuspended(cfg, n, states, steps, i - 1);
      var j := i - 1;
      assert Enabled(states[j], steps[j]) && states[j + 1] == Apply(cfg, states[j], steps[j]);
      NoneSuspendedStep(cfg, states[j], steps[j]);
    }
  }

  // ---------------------------------------------------------------- what the observer was handed

  datatype Observation = Observation(event: nat, ok: bool)

  /** The observer's answers in the first `i` steps, in order, each with the event it was given. */
  function Observations(states: seq<State>, steps: seq<Step>, i: nat): seq<Observation>
    requires i <= |steps| < |states|
  {
    if i == 0 then []
    else if steps[i - 1].WorkerObserve? && states[i - 1].worker.Observing? then
      Observations(states, steps, i - 1) + [Observation(states[i - 1].worker.event, steps[i - 1].ok)]
    else Observations(states, steps, i - 1)
  }

  /** How many observations ended that way. */
  function Ended(observations: seq<Observation>, ok: bool): nat {
    if observations == [] then 0
    else Ended(observations[..|observations| - 1], ok) + (if observations[|observations| - 1].ok == ok then 1 else 0)
  }

  /** The counters say how the observations ended; the events observed are those removed from the
      queue, in order, but for one in flight. */
  ghost predicate Accounted(s: State, observations: seq<Observation>) {
    && s.delivered == Ended(observations, true) && s.failed == Ended(observations, false)
    && |observations| + InFlight(s.worker) == |s.taken|
    && (forall k :: 0 <= k < |observations| ==> observations[k].event == s.taken[k])
    && (InFlight(s.worker) == 1 ==> s.worker.event == s.taken[|observations|])
  }

  lemma {:induction false} EndedEitherWay(observations: seq<Observation>)
    ensures Ended(observations, true) + Ended(observations, false) == |observations|
  {
    if observations == [] {
    } else {
      EndedEitherWay(observations[..|observations| - 1]);
    }
  }

  lemma ObservationStep(cfg: Config, s: State, step: Step, observations: seq<Observation>)
    requires Enabled(s, step) && Accounted(s, observations)
    ensures var t := Apply(cfg, s, step);
      Accounted(t, if step.WorkerObserve? then observations + [Observation(s.worker.event, step.ok)] else observations)
  {
    if step.WorkerObserve? {
      var more := observations + [Observation(s.worker.event, step.ok)];
      assert more[..|more| - 1] == observations;
    }
  }

  /** In every state of every run, the observer was given exactly the events removed from the queue,
      one by one in that order, and `delivered` and `failed` count how it answered. */
  lemma {:induction false} EachObservedOnce(cfg: Config, n: nat, states: seq<State>, steps: seq<Step>, i: nat)
    requires IsRun(cfg, n, states, steps) && i < |states|
    ensures Accounted(states[i], Observations(states, steps, i))
  {
    if i == 0 {
    } else {
      EachObservedOnce(cfg, n, states, steps, i - 1);
      var j := i - 1;
      assert Enabled(states[j], steps[j]) && states[j + 1] == Apply(cfg, states[j], steps[j]);
      ObservationStep(cfg, states[j], steps[j], Observations(states, steps, j));
    }
  }

  // ---------------------------------------------------------------- at rest

  lemma RestIsIdle(cfg: Config, n: nat, states: seq<State>, steps: seq<Step>, i: nat)
    requires cfg.capacity > 0 && IsRun(cfg, n, states, steps) && i < |states|
    requires Quiescent(states[i]) && states[i].shutdown.Open?
    ensures var s := states[i];
      && Truthful(s) && History(cfg, s) && !s.closed && s.queue == [] && InFlight(s.worker) == 0
      && forall d :: 0 <= d < |s.calls| ==> s.calls[d].Idle? || s.calls[d].Returned?
  {
    RunsKeepInvariant(cfg, n, states, steps, i);
    AtRest(states[i]);
  }

  /** The event was observed. */
  ghost predicate Observed(observations: seq<Observation>, d: nat) {
    exists k :: 0 <= k < |observations| && observations[k].event == d
  }

  lemma ObservedIsTaken(s: State, observations: seq<Observation>, d: nat)
    requires Accounted(s, observations) && InFlight(s.worker) == 0
    ensures Observed(observations, d) <==> d in s.taken
  {
    if d in s.taken {
      var k :| 0 <= k < |s.taken| && s.taken[k] == d;
      assert observations[k].event == d;
    }
  }

  /** Under DropNewest, once an open dispatcher is at rest, every started call was told that its event
      was enqueued or dropped, the former exactly when the observer was given it, in the order of
      acceptance; and the counter says how many were dropped. */
  lemma NewestDroppedOrObserved(cfg: Config, n: nat, states: seq<State>, steps: seq<Step>, i: nat, d: nat)
    requires cfg.capacity > 0 && cfg.policy == DropNewest && IsRun(cfg, n, states, steps) && i < |states|
    requires Quiescent(states[i]) && states[i].shutdown.Open? && d < |states[i].calls|
    ensures var s, observations := states[i], Observations(states, steps, i);
      && s.calls[d] in {Idle, Returned(Enqueued), Returned(DroppedNewest)}
      && (s.calls[d] == Returned(Enqueued) <==> Observed(observations, d))
      && s.taken == s.accepted && AnswerCount(s.calls, DroppedNewest) == s.droppedNewest
  {
    var s := states[i];
    RestIsIdle(cfg, n, states, steps, i);
    EachObservedOnce(cfg, n, states, steps, i);
    ObservedIsTaken(s, Observations(states, steps, i), d);
    NoAnswer(s.calls, DroppedOldest, d);
    assert s.taken + [] == s.taken;
  }

  /** Under DropOldest, once an open dispatcher is at rest, every started call's event entered the
      queue; all but as many as were evicted were observed, in the order of acceptance; and the
      counter says how many calls were told that they evicted one. */
  lemma OldestEvictedOrObserved(cfg: Config, n: nat, states: seq<State>, steps: seq<Step>, i: nat, d: nat)
    requires cfg.capacity > 0 && cfg.policy == DropOldest && IsRun(cfg, n, states, steps) && i < |states|
    requires Quiescent(states[i]) && states[i].shutdown.Open? && d < |states[i].calls|
    ensures var s, observations := states[i], Observations(states, steps, i);
      && s.calls[d] in {Idle, Returned(Enqueued), Returned(DroppedOldest)}
      && (s.calls[d] != Idle <==> d in s.accepted)
      && (Observed(observations, d) ==> s.calls[d] != Idle)
      && |observations| + s.droppedOldest == |s.accepted|
      && Tracks(s.positions, s.taken, s.accepted, |s.accepted|)
      && AnswerCount(s.calls, DroppedOldest) == s.droppedOldest
  {
    var s := states[i];
    RestIsIdle(cfg, n, states, steps, i);
    EachObservedOnce(cfg, n, states, steps, i);
    ObservedIsTaken(s, Observations(states, steps, i), d);
    NoAnswer(s.calls, DroppedNewest, d);
    if Observed(Observations(states, steps, i), d) {
      var k :| 0 <= k < |s.taken| && s.taken[k] == d;
      assert s.accepted[s.positions[k]] == d;
    }
  }
}
