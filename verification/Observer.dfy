/** The bounded observer dispatcher as a transition system: any number of dispatch calls, one
    worker and one shutdown, interleaved at critical sections, notifications and parks.

    An event is named by the dispatch call that submits it. A notifier holds one stored permit and
    a generation that `notify_waiters` advances, so that a future created before the advance
    completes when it is polled. */
module Observer {

  datatype Policy = Block | DropNewest | DropOldest

  datatype Config = Config(capacity: nat, policy: Policy)

  datatype DispatchOutcome = Enqueued | DroppedNewest | DroppedOldest | Closed

  datatype Notify = Notify(permit: bool, generation: nat)

  /** Where one dispatch call is. */
  datatype Call =
    | Idle                                 // not called yet
    | Looping                              // at the head of the retry loop
    | Armed(created: nat)                  // notification future created, lock not taken
    | Waiting(created: nat)                // found the queue full, about to poll the future
    | Parked                               // a waiter of `not_full`
    | Woken                                // notified, not running yet
    | Signalling(outcome: DispatchOutcome) // event queued, about to notify the worker
    | Returned(outcome: DispatchOutcome)

  datatype Worker =
    | Looping'
    | Armed'(created: nat)
    | Waiting'(created: nat)
    | Parked'
    | Woken'
    | Signalling'(event: nat)              // event taken, about to notify a dispatcher
    | Observing(event: nat)
    | Exited

  datatype Shutdown = Open | ClosedQueue | WokeWorker | WokeCalls | Finished

  /** The shared queue, its counters, its tasks, and the history the properties speak about:
      `accepted` lists every event that entered the queue, `taken` every event the worker removed,
      and `positions` where in `accepted` each taken event stands. */
  datatype State = State(
    queue: seq<nat>, closed: bool, notEmpty: Notify, notFull: Notify,
    calls: seq<Call>, worker: Worker, shutdown: Shutdown,
    enqueued: nat, droppedNewest: nat, droppedOldest: nat, delivered: nat, failed: nat,
    accepted: seq<nat>, taken: seq<nat>, positions: seq<nat>)

  function IdleCalls(n: nat): (calls: seq<Call>)
    ensures |calls| == n && forall d :: 0 <= d < n ==> calls[d] == Idle
  {
    seq(n, _ => Idle)
  }

  /** A fresh dispatcher for `n` dispatch calls. */
  function Init(n: nat): State {
    State([], false, Notify(false, 0), Notify(false, 0), IdleCalls(n), Looping', Open,
          0, 0, 0, 0, 0, [], [], [])
  }

  datatype Step =
    | CallStart(d: nat) | CallArm(d: nat) | CallLock(d: nat) | CallPoll(d: nat) | CallResume(d: nat)
    | CallSignal(d: nat)
    | WorkerArm | WorkerLock | WorkerPoll | WorkerResume | WorkerSignal(waiter: nat) | WorkerObserve(ok: bool)
    | ShutClose | ShutWakeWorker | ShutWakeCalls | ShutJoin

  predicate AnyParked(s: State) {
    exists d :: 0 <= d < |s.calls| && s.calls[d].Parked?
  }

  /** Whether the task owning the step is at that step. Notifying one dispatcher names the parked
      call it wakes when there is one. */
  predicate Enabled(s: State, step: Step) {
    match step
    case CallStart(d) => d < |s.calls| && s.calls[d].Idle?
    case CallArm(d) => d < |s.calls| && s.calls[d].Looping?
    case CallLock(d) => d < |s.calls| && s.calls[d].Armed?
    case CallPoll(d) => d < |s.calls| && s.calls[d].Waiting?
    case CallResume(d) => d < |s.calls| && s.calls[d].Woken?
    case CallSignal(d) => d < |s.calls| && s.calls[d].Signalling?
    case WorkerArm => s.worker.Looping'?
    case WorkerLock => s.worker.Armed'?
    case WorkerPoll => s.worker.Waiting'?
    case WorkerResume => s.worker.Woken'?
    case WorkerSignal(w) => s.worker.Signalling'? && (AnyParked(s) ==> w < |s.calls| && s.calls[w].Parked?)
    case WorkerObserve(_) => s.worker.Observing?
    case ShutClose => s.shutdown.Open?
    case ShutWakeWorker => s.shutdown.ClosedQueue?
    case ShutWakeCalls => s.shutdown.WokeWorker?
    case ShutJoin => s.shutdown.WokeCalls? && s.worker.Exited?
  }

  function SetCall(s: State, d: nat, c: Call): State
    requires d < |s.calls|
  {
    s.(calls := s.calls[d := c])
  }

  /** The critical section of `dispatch`. */
  function LockedDispatch(cfg: Config, s: State, d: nat): State
    requires d < |s.calls| && s.calls[d].Armed?
  {
    if s.closed then SetCall(s, d, Returned(Closed))
    else if |s.queue| < cfg.capacity then
      SetCall(s, d, Signalling(Enqueued))
        .(queue := s.queue + [d], accepted := s.accepted + [d], enqueued := s.enqueued + 1)
    else match cfg.policy
      case Block => SetCall(s, d, Waiting(s.calls[d].created))
      case DropNewest => SetCall(s, d, Returned(DroppedNewest)).(droppedNewest := s.droppedNewest + 1)
      case DropOldest =>
        SetCall(s, d, Signalling(DroppedOldest))
          .(queue := (if s.queue == [] then [] else s.queue[1..]) + [d],
            accepted := s.accepted + [d], enqueued := s.enqueued + 1,
            droppedOldest := s.droppedOldest + 1)
  }

  /** The first poll of a dispatch call's notification: a stored permit is taken first, even by a
      future that `notify_waiters` has completed. */
  function PollCall(s: State, d: nat): State
    requires d < |s.calls| && s.calls[d].Waiting?
  {
    if s.notFull.permit then SetCall(s, d, Looping).(notFull := s.notFull.(permit := false))
    else if s.calls[d].created != s.notFull.generation then SetCall(s, d, Looping)
    else SetCall(s, d, Parked)
  }

  /** `not_empty.notify_one`: wakes the parked worker or stores the permit. */
  function SignalWorker(s: State): State {
    if s.worker.Parked'? then s.(worker := Woken') else s.(notEmpty := s.notEmpty.(permit := true))
  }

  /** The critical section of the worker. */
  function LockedTake(s: State): State
    requires s.worker.Armed'?
  {
    if s.queue != [] then
      s.(worker := Signalling'(s.queue[0]), queue := s.queue[1..], taken := s.taken + [s.queue[0]],
         positions := s.positions + [if |s.accepted| < |s.queue| then 0 else |s.accepted| - |s.queue|])
    else if s.closed then s.(worker := Exited)
    else s.(worker := Waiting'(s.worker.created))
  }

  function PollWorker(s: State): State
    requires s.worker.Waiting'?
  {
    if s.notEmpty.permit then s.(worker := Looping', notEmpty := s.notEmpty.(permit := false))
    else if s.worker.created != s.notEmpty.generation then s.(worker := Looping')
    else s.(worker := Parked')
  }

  /** `not_full.notify_one`: wakes one parked call or stores the permit. */
  function SignalCall(s: State, w: nat): State
    requires s.worker.Signalling'? && (AnyParked(s) ==> w < |s.calls|)
  {
    var t := s.(worker := Observing(s.worker.event));
    if AnyParked(s) then SetCall(t, w, Woken) else t.(notFull := s.notFull.(permit := true))
  }

  function WakeCall(c: Call): Call {
    if c.Parked? then Woken else c
  }

  function WakeAll(calls: seq<Call>): (r: seq<Call>)
    ensures |r| == |calls|
    ensures forall d :: 0 <= d < |calls| ==> r[d] == WakeCall(calls[d])
  {
    seq(|calls|, d requires 0 <= d < |calls| => WakeCall(calls[d]))
  }

  function Apply(cfg: Config, s: State, step: Step): State
    requires Enabled(s, step)
  {
    match step
    case CallStart(d) => SetCall(s, d, Looping)
    case CallArm(d) => SetCall(s, d, Armed(s.notFull.generation))
    case CallLock(d) => LockedDispatch(cfg, s, d)
    case CallPoll(d) => PollCall(s, d)
    case CallResume(d) => SetCall(s, d, Looping)
    case CallSignal(d) => SignalWorker(SetCall(s, d, Returned(s.calls[d].outcome)))
    case WorkerArm => s.(worker := Armed'(s.notEmpty.generation))
    case WorkerLock => LockedTake(s)
    case WorkerPoll => PollWorker(s)
    case WorkerResume => s.(worker := Looping')
    case WorkerSignal(w) => SignalCall(s, w)
    case WorkerObserve(ok) =>
      if ok then s.(worker := Looping', delivered := s.delivered + 1)
      else s.(worker := Looping', failed := s.failed + 1)
    case ShutClose => s.(shutdown := ClosedQueue, closed := true)
    case ShutWakeWorker =>
      s.(shutdown := WokeWorker, notEmpty := s.notEmpty.(generation := s.notEmpty.generation + 1),
         worker := if s.worker.Parked'? then Woken' else s.worker)
    case ShutWakeCalls =>
      s.(shutdown := WokeCalls, notFull := s.notFull.(generation := s.notFull.generation + 1),
         calls := WakeAll(s.calls))
    case ShutJoin => s.(shutdown := Finished)
  }

  // ---------------------------------------------------------------- runs

  /** `states` is a run: it starts fresh and every next state is the effect of an enabled step. */
  ghost predicate IsRun(cfg: Config, n: nat, states: seq<State>, steps: seq<Step>) {
    && |states| == |steps| + 1
    && states[0] == Init(n)
    && forall i :: 0 <= i < |steps| ==> Enabled(states[i], steps[i]) && states[i + 1] == Apply(cfg, states[i], steps[i])
  }

  // ---------------------------------------------------------------- the ledger

  function InFlight(w: Worker): nat {
    if w.Signalling'? || w.Observing? then 1 else 0
  }

  /** Bounded queue, accepted order and counters. */
  ghost predicate Ledger(cfg: Config, s: State) {
    && |s.queue| <= cfg.capacity
    && IsSuffix(s.queue, s.accepted)
    && s.enqueued == |s.accepted|
    && s.droppedOldest + |s.taken| + |s.queue| == |s.accepted|
    && |s.taken| == s.delivered + s.failed + InFlight(s.worker)
    && (!cfg.policy.DropOldest? ==> s.droppedOldest == 0)
    && (!cfg.policy.DropNewest? ==> s.droppedNewest == 0)
  }

  /** `taken` is the subsequence of `accepted` at the increasing `positions`, all below `bound`. */
  ghost predicate Tracks(positions: seq<nat>, taken: seq<nat>, accepted: seq<nat>, bound: int) {
    && |positions| == |taken| && bound <= |accepted|
    && (forall k :: 0 <= k < |taken| ==> positions[k] < bound && taken[k] == accepted[positions[k]])
    && forall j, k :: 0 <= j < k < |taken| ==> positions[j] < positions[k]
  }

  /** What the worker removed is a subsequence of the accepted order, all before the queue, and the
      event in flight is the last one removed. */
  ghost predicate InOrder(s: State) {
    && Tracks(s.positions, s.taken, s.accepted, |s.accepted| - |s.queue|)
    && (InFlight(s.worker) == 1 ==> |s.taken| > 0 && s.worker.event == s.taken[|s.taken| - 1])
  }

  /** Without eviction the worker removed exactly what was accepted and is no longer queued. */
  ghost predicate NothingSkipped(cfg: Config, s: State) {
    !cfg.policy.DropOldest? ==> s.accepted == s.taken + s.queue
  }

  /** Everything the history speaks about. */
  ghost predicate History(cfg: Config, s: State) {
    Ledger(cfg, s) && InOrder(s) && NothingSkipped(cfg, s)
  }

  /** The steps that move no event. */
  predicate MovesNothing(step: Step) {
    !step.CallLock? && !step.WorkerLock?
  }

  lemma QuietStep(cfg: Config, s: State, step: Step)
    requires Enabled(s, step) && MovesNothing(step)
    ensures var t := Apply(cfg, s, step);
      && t.queue == s.queue && t.accepted == s.accepted && t.taken == s.taken && t.positions == s.positions
      && t.enqueued == s.enqueued && t.droppedOldest == s.droppedOldest && t.droppedNewest == s.droppedNewest
      && t.delivered + t.failed + InFlight(t.worker) == s.delivered + s.failed + InFlight(s.worker)
      && (InFlight(t.worker) == 1 ==> InFlight(s.worker) == 1 && t.worker.event == s.worker.event)
  {
  }

  ghost predicate IsSuffix(queue: seq<nat>, accepted: seq<nat>) {
    |queue| <= |accepted| && queue == accepted[|accepted| - |queue|..]
  }

  lemma SuffixMoves(queue: seq<nat>, accepted: seq<nat>, d: nat)
    requires IsSuffix(queue, accepted)
    ensures IsSuffix(queue + [d], accepted + [d])
    ensures queue != [] ==> IsSuffix(queue[1..] + [d], accepted + [d]) && IsSuffix(queue[1..], accepted)
    ensures queue != [] ==> queue[0] == accepted[|accepted| - |queue|]
  {
    var k := |accepted| - |queue|;
    assert (accepted + [d])[k..] == accepted[k..] + [d];
    if queue != [] {
      assert (accepted + [d])[k + 1..] == accepted[k..][1..] + [d];
      assert accepted[k + 1..] == accepted[k..][1..];
    }
  }

  lemma TracksGrows(positions: seq<nat>, taken: seq<nat>, accepted: seq<nat>, bound: int, d: nat, bound': int)
    requires Tracks(positions, taken, accepted, bound) && bound <= bound' <= |accepted| + 1
    ensures Tracks(positions, taken, accepted + [d], bound')
  {
  }

  lemma TracksTakes(positions: seq<nat>, taken: seq<nat>, accepted: seq<nat>, bound: nat)
    requires Tracks(positions, taken, accepted, bound) && bound < |accepted|
    ensures Tracks(positions + [bound], taken + [accepted[bound]], accepted, bound + 1)
  {
  }

  lemma AcceptKeepsLedger(cfg: Config, s: State, d: nat)
    requires cfg.capacity > 0 && Enabled(s, CallLock(d)) && Ledger(cfg, s)
    ensures Ledger(cfg, LockedDispatch(cfg, s, d))
  {
    SuffixMoves(s.queue, s.accepted, d);
  }

  lemma AcceptKeepsOrder(cfg: Config, s: State, d: nat)
    requires cfg.capacity > 0 && Enabled(s, CallLock(d)) && InOrder(s)
    ensures InOrder(LockedDispatch(cfg, s, d))
  {
    var bound := |s.accepted| - |s.queue|;
    if !s.closed && |s.queue| < cfg.capacity {
      TracksGrows(s.positions, s.taken, s.accepted, bound, d, bound);
    } else if !s.closed && cfg.policy.DropOldest? {
      TracksGrows(s.positions, s.taken, s.accepted, bound, d, bound + 1);
    }
  }

  lemma AcceptSkipsNothing(cfg: Config, s: State, d: nat)
    requires cfg.capacity > 0 && Enabled(s, CallLock(d)) && NothingSkipped(cfg, s)
    ensures NothingSkipped(cfg, LockedDispatch(cfg, s, d))
  {
    assert s.taken + s.queue + [d] == s.taken + (s.queue + [d]);
  }

  lemma AcceptKeepsHistory(cfg: Config, s: State, d: nat)
    requires cfg.capacity > 0 && Enabled(s, CallLock(d)) && History(cfg, s)
    ensures History(cfg, LockedDispatch(cfg, s, d))
  {
    AcceptKeepsLedger(cfg, s, d);
    AcceptKeepsOrder(cfg, s, d);
    AcceptSkipsNothing(cfg, s, d);
  }

  lemma TakeKeepsHistory(cfg: Config, s: State)
    requires s.worker.Armed'? && History(cfg, s)
    ensures History(cfg, LockedTake(s))
  {
    if s.queue != [] {
      SuffixMoves(s.queue, s.accepted, 0);
      TracksTakes(s.positions, s.taken, s.accepted, |s.accepted| - |s.queue|);
      assert s.taken + [s.queue[0]] + s.queue[1..] == s.taken + s.queue;
    }
  }

  lemma HistoryStep(cfg: Config, s: State, step: Step)
    requires cfg.capacity > 0 && Enabled(s, step) && History(cfg, s)
    ensures History(cfg, Apply(cfg, s, step))
  {
    if step.CallLock? {
      AcceptKeepsHistory(cfg, s, step.d);
    } else if step.WorkerLock? {
      TakeKeepsHistory(cfg, s);
    } else {
      QuietStep(cfg, s, step);
    }
  }

  // ---------------------------------------------------------------- answers

  /** The call has settled on an outcome. */
  predicate Answers(c: Call, o: DispatchOutcome) {
    (c.Signalling? || c.Returned?) && c.outcome == o
  }

  function AnswerCount(calls: seq<Call>, o: DispatchOutcome): nat {
    if calls == [] then 0
    else AnswerCount(calls[..|calls| - 1], o) + (if Answers(calls[|calls| - 1], o) then 1 else 0)
  }

  predicate AcceptedBy(c: Call) {
    Answers(c, Enqueued) || Answers(c, DroppedOldest)
  }

  /** Every event is accepted at most once, and exactly when its call says so. */
  ghost predicate AcceptedAsTold(s: State) {
    && (forall d :: d in s.accepted <==> 0 <= d < |s.calls| && AcceptedBy(s.calls[d]))
    && (forall i, j :: 0 <= i < j < |s.accepted| ==> s.accepted[i] != s.accepted[j])
    && (forall d :: 0 <= d < |s.calls| && Answers(s.calls[d], Closed) ==> s.closed)
  }

  /** The counters agree with what the calls were told. */
  ghost predicate CountedAsTold(s: State) {
    && AnswerCount(s.calls, DroppedNewest) == s.droppedNewest
    && AnswerCount(s.calls, DroppedOldest) == s.droppedOldest
    && AnswerCount(s.calls, Enqueued) + AnswerCount(s.calls, DroppedOldest) == s.enqueued
  }

  ghost predicate Truthful(s: State) {
    AcceptedAsTold(s) && CountedAsTold(s)
  }

  lemma {:induction false} AnswerUpdate(calls: seq<Call>, d: nat, c: Call, o: DispatchOutcome)
    requires d < |calls|
    ensures AnswerCount(calls[d := c], o) + (if Answers(calls[d], o) then 1 else 0)
         == AnswerCount(calls, o) + (if Answers(c, o) then 1 else 0)
  {
    var n := |calls| - 1;
    if d < n {
      AnswerUpdate(calls[..n], d, c, o);
      assert calls[d := c][..n] == calls[..n][d := c];
    } else {
      assert calls[d := c][..n] == calls[..n];
    }
  }

  ghost predicate SameAnswers(calls: seq<Call>, calls': seq<Call>) {
    |calls| == |calls'| &&
    forall d, o :: 0 <= d < |calls| ==> (Answers(calls[d], o) <==> Answers(calls'[d], o))
  }

  lemma {:induction false} SameAnswerCount(calls: seq<Call>, calls': seq<Call>, o: DispatchOutcome)
    requires SameAnswers(calls, calls')
    ensures AnswerCount(calls, o) == AnswerCount(calls', o)
  {
    if calls == [] {
    } else {
      SameAnswerCount(calls[..|calls| - 1], calls'[..|calls| - 1], o);
    }
  }

  /** Only the critical section of `dispatch` answers a call. */
  lemma OnlyLockAnswers(cfg: Config, s: State, step: Step)
    requires Enabled(s, step) && !step.CallLock?
    ensures var t := Apply(cfg, s, step);
      SameAnswers(s.calls, t.calls) && t.accepted == s.accepted && t.enqueued == s.enqueued
      && t.droppedNewest == s.droppedNewest && t.droppedOldest == s.droppedOldest && (s.closed ==> t.closed)
  {
  }

  lemma LockIsTold(cfg: Config, s: State, d: nat)
    requires Enabled(s, CallLock(d)) && AcceptedAsTold(s)
    ensures AcceptedAsTold(LockedDispatch(cfg, s, d))
  {
  }

  lemma LockIsCounted(cfg: Config, s: State, d: nat)
    requires Enabled(s, CallLock(d)) && CountedAsTold(s)
    ensures CountedAsTold(LockedDispatch(cfg, s, d))
  {
    var c := LockedDispatch(cfg, s, d).calls[d];
    AnswerUpdate(s.calls, d, c, Enqueued);
    AnswerUpdate(s.calls, d, c, DroppedNewest);
    AnswerUpdate(s.calls, d, c, DroppedOldest);
  }

  lemma TruthfulStep(cfg: Config, s: State, step: Step)
    requires Enabled(s, step) && Truthful(s)
    ensures Truthful(Apply(cfg, s, step))
  {
    if step.CallLock? {
      LockIsTold(cfg, s, step.d);
      LockIsCounted(cfg, s, step.d);
    } else {
      var t := Apply(cfg, s, step);
      OnlyLockAnswers(cfg, s, step);
      SameAnswerCount(s.calls, t.calls, Enqueued);
      SameAnswerCount(s.calls, t.calls, DroppedNewest);
      SameAnswerCount(s.calls, t.calls, DroppedOldest);
    }
  }

  lemma {:induction false} IdleAnswers(n: nat, o: DispatchOutcome)
    ensures AnswerCount(IdleCalls(n), o) == 0
  {
    if n == 0 {
    } else {
      IdleAnswers(n - 1, o);
      assert IdleCalls(n)[..n - 1] == IdleCalls(n - 1);
    }
  }

  // ---------------------------------------------------------------- wake-ups

  /** Suspended on `not_full`, or certain to be at the next poll without a permit. */
  predicate Blocked(c: Call, generation: nat) {
    c.Parked? || (c.Waiting? && c.created == generation)
  }

  predicate Running(c: Call) {
    c.Looping? || c.Armed? || c.Woken?
  }

  ghost predicate AnyBlocked(s: State) {
    exists d :: 0 <= d < |s.calls| && Blocked(s.calls[d], s.notFull.generation)
  }

  ghost predicate AnyRunning(s: State) {
    exists d :: 0 <= d < |s.calls| && Running(s.calls[d])
  }

  ghost predicate AnySignalling(s: State) {
    exists d :: 0 <= d < |s.calls| && s.calls[d].Signalling?
  }

  predicate Closing(s: State) {
    s.shutdown.ClosedQueue? || s.shutdown.WokeWorker?
  }

  /** A blocked call is owed progress by somebody. */
  ghost predicate CallsOwed(s: State) {
    AnyBlocked(s) ==> s.queue != [] || s.worker.Signalling'? || s.notFull.permit || AnyRunning(s) || Closing(s)
  }

  /** A suspended worker with queued events is owed a wake-up by somebody. */
  ghost predicate WorkerOwed(s: State) {
    (s.worker.Parked'? || (s.worker.Waiting'? && s.worker.created == s.notEmpty.generation)) ==>
      (s.queue == [] || s.notEmpty.permit || AnySignalling(s)) && (s.closed ==> s.shutdown.ClosedQueue?)
  }

  ghost predicate PermitsUnclaimed(s: State) {
    && (s.worker.Parked'? ==> !s.notEmpty.permit)
    && (AnyParked(s) ==> !s.notFull.permit)
  }

  ghost predicate Generations(s: State) {
    && (forall d :: 0 <= d < |s.calls| && (s.calls[d].Armed? || s.calls[d].Waiting?) ==>
          s.calls[d].created <= s.notFull.generation)
    && (s.worker.Armed'? || s.worker.Waiting'? ==> s.worker.created <= s.notEmpty.generation)
  }

  ghost predicate ShutdownOrder(s: State) {
    && (s.closed <==> !s.shutdown.Open?)
    && (s.worker.Exited? ==> s.closed && s.queue == [])
    && (s.shutdown.WokeCalls? || s.shutdown.Finished? ==> !AnyBlocked(s))
    && (s.shutdown.Finished? ==> s.worker.Exited?)
  }

  ghost predicate WakeInvariant(s: State) {
    CallsOwed(s) && WorkerOwed(s) && PermitsUnclaimed(s) && Generations(s) && ShutdownOrder(s)
  }

  lemma GenerationsStep(cfg: Config, s: State, step: Step)
    requires Enabled(s, step) && Generations(s)
    ensures Generations(Apply(cfg, s, step))
  {
  }

  /** Changing one call: what is blocked, running or signalling afterwards. */
  lemma OneCallChanged(s: State, t: State, d: nat)
    requires d < |s.calls| == |t.calls| && t.calls == s.calls[d := t.calls[d]]
    requires t.notFull.generation == s.notFull.generation
    ensures AnyBlocked(t) ==> AnyBlocked(s) || Blocked(t.calls[d], t.notFull.generation)
    ensures AnyRunning(s) && !Running(s.calls[d]) ==> AnyRunning(t)
    ensures Running(t.calls[d]) ==> AnyRunning(t)
    ensures AnySignalling(s) && !s.calls[d].Signalling? ==> AnySignalling(t)
    ensures t.calls[d].Signalling? ==> AnySignalling(t)
    ensures AnyParked(t) ==> AnyParked(s) || t.calls[d].Parked?
  {
    if e :| 0 <= e < |t.calls| && Blocked(t.calls[e], t.notFull.generation) {
      assert e == d || Blocked(s.calls[e], s.notFull.generation);
    }
    if AnyRunning(s) && !Running(s.calls[d]) {
      var e :| 0 <= e < |s.calls| && Running(s.calls[e]);
      assert Running(t.calls[e]);
    }
    if AnySignalling(s) && !s.calls[d].Signalling? {
      var e :| 0 <= e < |s.calls| && s.calls[e].Signalling?;
      assert t.calls[e].Signalling?;
    }
    if e :| 0 <= e < |t.calls| && t.calls[e].Parked? {
      assert e == d || s.calls[e].Parked?;
    }
  }

  lemma CallStepKeepsWake(cfg: Config, s: State, step: Step)
    requires cfg.capacity > 0 && Enabled(s, step) && WakeInvariant(s)
    requires step.CallStart? || step.CallArm? || step.CallPoll? || step.CallResume? || step.CallSignal?
    ensures WakeInvariant(Apply(cfg, s, step))
  {
    var t := Apply(cfg, s, step);
    OneCallChanged(s, t, step.d);
    GenerationsStep(cfg, s, step);
  }

  lemma LockKeepsWake(cfg: Config, s: State, step: Step)
    requires cfg.capacity > 0 && Enabled(s, step) && WakeInvariant(s) && step.CallLock?
    ensures WakeInvariant(Apply(cfg, s, step))
  {
    var t := Apply(cfg, s, step);
    OneCallChanged(s, t, step.d);
    GenerationsStep(cfg, s, step);
  }

  lemma WorkerStepKeepsWake(cfg: Config, s: State, step: Step)
    requires Enabled(s, step) && WakeInvariant(s)
    requires step.WorkerArm? || step.WorkerLock? || step.WorkerPoll? || step.WorkerResume? || step.WorkerObserve?
    ensures WakeInvariant(Apply(cfg, s, step))
  {
    var t := Apply(cfg, s, step);
    assert t.calls == s.calls;
  }

  lemma SignalKeepsWake(cfg: Config, s: State, step: Step)
    requires Enabled(s, step) && WakeInvariant(s) && step.WorkerSignal?
    ensures WakeInvariant(Apply(cfg, s, step))
  {
    var t := Apply(cfg, s, step);
    if AnyParked(s) {
      OneCallChanged(s, t, step.waiter);
    }
    GenerationsStep(cfg, s, step);
  }

  lemma ShutdownKeepsWake(cfg: Config, s: State, step: Step)
    requires Enabled(s, step) && WakeInvariant(s)
    requires step.ShutClose? || step.ShutWakeWorker? || step.ShutWakeCalls? || step.ShutJoin?
    ensures WakeInvariant(Apply(cfg, s, step))
  {
    var t := Apply(cfg, s, step);
    GenerationsStep(cfg, s, step);
    if step.ShutWakeCalls? {
      forall d | 0 <= d < |t.calls| ensures !Blocked(t.calls[d], t.notFull.generation) {
        assert t.calls[d] == WakeCall(s.calls[d]);
      }
      if AnySignalling(s) {
        var d :| 0 <= d < |s.calls| && s.calls[d].Signalling?;
        assert t.calls[d].Signalling?;
      }
    }
  }

  lemma WakeStep(cfg: Config, s: State, step: Step)
    requires cfg.capacity > 0 && Enabled(s, step) && WakeInvariant(s)
    ensures WakeInvariant(Apply(cfg, s, step))
  {
    match step
    case CallLock(_) => LockKeepsWake(cfg, s, step);
    case WorkerSignal(_) => SignalKeepsWake(cfg, s, step);
    case CallStart(_) => CallStepKeepsWake(cfg, s, step);
    case CallArm(_) => CallStepKeepsWake(cfg, s, step);
    case CallPoll(_) => CallStepKeepsWake(cfg, s, step);
    case CallResume(_) => CallStepKeepsWake(cfg, s, step);
    case CallSignal(_) => CallStepKeepsWake(cfg, s, step);
    case WorkerArm => WorkerStepKeepsWake(cfg, s, step);
    case WorkerLock => WorkerStepKeepsWake(cfg, s, step);
    case WorkerPoll => WorkerStepKeepsWake(cfg, s, step);
    case WorkerResume => WorkerStepKeepsWake(cfg, s, step);
    case WorkerObserve(_) => WorkerStepKeepsWake(cfg, s, step);
    case ShutClose => ShutdownKeepsWake(cfg, s, step);
    case ShutWakeWorker => ShutdownKeepsWake(cfg, s, step);
    case ShutWakeCalls => ShutdownKeepsWake(cfg, s, step);
    case ShutJoin => ShutdownKeepsWake(cfg, s, step);
  }

  // ---------------------------------------------------------------- progress measure

  /** What one call may still cost: its own delivery, plus the rest of its current attempt. A
      future created before the last `notify_waiters` buys one more attempt. */
  function CallWeight(c: Call, generation: nat): nat {
    match c
    case Idle => 16
    case Looping => 15
    case Armed(g) => if g == generation then 14 else 18
    case Waiting(g) => if g == generation then 13 else 17
    case Parked => 12
    case Woken => 16
    case Signalling(_) => 5
    case Returned(_) => 0
  }

  function CallsWeight(calls: seq<Call>, generation: nat): nat {
    if calls == [] then 0
    else CallsWeight(calls[..|calls| - 1], generation) + CallWeight(calls[|calls| - 1], generation)
  }

  function WorkerWeight(w: Worker, generation: nat): nat {
    match w
    case Looping' => 4
    case Armed'(g) => if g == generation then 3 else 6
    case Waiting'(g) => if g == generation then 2 else 5
    case Parked' => 1
    case Woken' => 5
    case Signalling'(_) => 10
    case Observing(_) => 5
    case Exited => 0
  }

  function ShutdownWeight(sh: Shutdown, n: nat): nat {
    match sh
    case Open => 8 + 4 * n
    case ClosedQueue => 7 + 4 * n
    case WokeWorker => 2 + 4 * n
    case WokeCalls => 1
    case Finished => 0
  }

  /** An upper bound on the number of steps left. */
  function Potential(s: State): nat {
    CallsWeight(s.calls, s.notFull.generation) + 8 * |s.queue|
    + WorkerWeight(s.worker, s.notEmpty.generation)
    + (if s.notFull.permit then 3 else 0) + (if s.notEmpty.permit then 3 else 0)
    + ShutdownWeight(s.shutdown, |s.calls|)
  }

  lemma {:induction false} WeightUpdate(calls: seq<Call>, generation: nat, d: nat, c: Call)
    requires d < |calls|
    ensures CallsWeight(calls[d := c], generation) + CallWeight(calls[d], generation)
         == CallsWeight(calls, generation) + CallWeight(c, generation)
  {
    var n := |calls| - 1;
    if d < n {
      WeightUpdate(calls[..n], generation, d, c);
      assert calls[d := c][..n] == calls[..n][d := c];
    } else {
      assert calls[d := c][..n] == calls[..n];
    }
  }

  lemma {:induction false} WeightWakeAll(calls: seq<Call>, generation: nat)
    requires forall d :: 0 <= d < |calls| && (calls[d].Armed? || calls[d].Waiting?) ==> calls[d].created <= generation
    ensures CallsWeight(WakeAll(calls), generation + 1) <= CallsWeight(calls, generation) + 4 * |calls|
  {
    if calls == [] {
    } else {
      var n := |calls| - 1;
      WeightWakeAll(calls[..n], generation);
      assert WakeAll(calls)[..n] == WakeAll(calls[..n]);
    }
  }

  lemma {:induction false} WeightIdle(n: nat, generation: nat)
    ensures CallsWeight(IdleCalls(n), generation) == 16 * n
  {
    if n == 0 {
    } else {
      WeightIdle(n - 1, generation);
      assert IdleCalls(n)[..n - 1] == IdleCalls(n - 1);
    }
  }

  lemma LockUsesPotential(cfg: Config, s: State, d: nat)
    requires Enabled(s, CallLock(d))
    ensures Potential(LockedDispatch(cfg, s, d)) < Potential(s)
  {
    var t := LockedDispatch(cfg, s, d);
    WeightUpdate(s.calls, s.notFull.generation, d, t.calls[d]);
  }

  lemma CallStepUsesPotential(cfg: Config, s: State, step: Step)
    requires Enabled(s, step)
    requires step.CallStart? || step.CallArm? || step.CallPoll? || step.CallResume? || step.CallSignal?
    ensures Potential(Apply(cfg, s, step)) < Potential(s)
  {
    var t := Apply(cfg, s, step);
    WeightUpdate(s.calls, s.notFull.generation, step.d, t.calls[step.d]);
  }

  lemma WorkerSignalUsesPotential(cfg: Config, s: State, step: Step)
    requires Enabled(s, step) && step.WorkerSignal?
    ensures Potential(Apply(cfg, s, step)) < Potential(s)
  {
    if AnyParked(s) {
      WeightUpdate(s.calls, s.notFull.generation, step.waiter, Woken);
    }
  }

  /** Every step uses up some potential, whichever task takes it. */
  lemma StepUsesPotential(cfg: Config, s: State, step: Step)
    requires Enabled(s, step) && Generations(s)
    ensures Potential(Apply(cfg, s, step)) < Potential(s)
  {
    if step.CallLock? {
      LockUsesPotential(cfg, s, step.d);
    } else if step.CallStart? || step.CallArm? || step.CallPoll? || step.CallResume? || step.CallSignal? {
      CallStepUsesPotential(cfg, s, step);
    } else if step.WorkerSignal? {
      WorkerSignalUsesPotential(cfg, s, step);
    } else if step.ShutWakeCalls? {
      WeightWakeAll(s.calls, s.notFull.generation);
    }
  }

  // ---------------------------------------------------------------- main results

  ghost predicate Invariant(cfg: Config, s: State) {
    History(cfg, s) && Truthful(s) && WakeInvariant(s)
  }

  lemma InvariantStep(cfg: Config, s: State, step: Step)
    requires cfg.capacity > 0 && Enabled(s, step) && Invariant(cfg, s)
    ensures Invariant(cfg, Apply(cfg, s, step))
    ensures Potential(Apply(cfg, s, step)) < Potential(s)
  {
    HistoryStep(cfg, s, step);
    TruthfulStep(cfg, s, step);
    WakeStep(cfg, s, step);
    StepUsesPotential(cfg, s, step);
  }

  /** Every state of every run keeps the ledger, the order, the answers and the wake-up invariant, and the run
      has used at least one unit of potential per step. */
  lemma {:induction false} RunsKeepInvariant(cfg: Config, n: nat, states: seq<State>, steps: seq<Step>, i: nat)
    requires cfg.capacity > 0 && IsRun(cfg, n, states, steps) && i < |states|
    ensures Invariant(cfg, states[i])
    ensures Potential(states[i]) + i <= 20 * n + 12
  {
    if i == 0 {
      InitKeeps(cfg, n);
    } else {
      RunsKeepInvariant(cfg, n, states, steps, i - 1);
      var j := i - 1;
      assert Enabled(states[j], steps[j]) && states[j + 1] == Apply(cfg, states[j], steps[j]);
      InvariantStep(cfg, states[j], steps[j]);
    }
  }

  lemma InitKeeps(cfg: Config, n: nat)
    ensures Invariant(cfg, Init(n)) && Potential(Init(n)) == 20 * n + 12
  {
    InitIsTruthful(n);
    InitOwesNothing(n);
    InitIsEmpty(cfg, n);
    WeightIdle(n, 0);
  }

  lemma InitIsEmpty(cfg: Config, n: nat)
    ensures History(cfg, Init(n))
  {
  }

  lemma InitIsTruthful(n: nat)
    ensures Truthful(Init(n))
  {
    IdleAnswers(n, Enqueued);
    IdleAnswers(n, DroppedNewest);
    IdleAnswers(n, DroppedOldest);
  }

  lemma InitOwesNothing(n: nat)
    ensures WakeInvariant(Init(n))
  {
  }

  /** Every run is finite: with `n` dispatch calls it has at most 20n + 12 steps. */
  lemma RunsAreBounded(cfg: Config, n: nat, states: seq<State>, steps: seq<Step>)
    requires cfg.capacity > 0 && IsRun(cfg, n, states, steps)
    ensures |steps| <= 20 * n + 12
  {
    RunsKeepInvariant(cfg, n, states, steps, |steps|);
  }

  /** No wake-up is ever lost: a call parked beside an empty queue and a parked worker always has a
      running or signalling task, a permit or a shutdown notification still to come. */
  lemma NoLostWakeup(cfg: Config, n: nat, states: seq<State>, steps: seq<Step>, i: nat)
    requires cfg.capacity > 0 && IsRun(cfg, n, states, steps) && i < |states|
    ensures var s := states[i];
      !(AnyParked(s) && s.queue == [] && s.worker.Parked'?
        && !s.notFull.permit && !AnyRunning(s) && !Closing(s))
  {
    RunsKeepInvariant(cfg, n, states, steps, i);
    var s := states[i];
    if d :| 0 <= d < |s.calls| && s.calls[d].Parked? {
      assert Blocked(s.calls[d], s.notFull.generation);
    }
  }

  /** No task can take a step: only calls that have not started and a shutdown that has not been
      requested remain possible. */
  ghost predicate Quiescent(s: State) {
    forall step :: Enabled(s, step) ==> step.CallStart? || step.ShutClose?
  }

  /** A dispatcher comes to rest only when every started call has returned, the queue is empty, and
      a requested shutdown has completed with the worker gone. */
  lemma RestMeansDone(cfg: Config, n: nat, states: seq<State>, steps: seq<Step>, i: nat)
    requires cfg.capacity > 0 && IsRun(cfg, n, states, steps) && i < |states| && Quiescent(states[i])
    ensures var s := states[i];
      && (forall d :: 0 <= d < |s.calls| ==> s.calls[d].Idle? || s.calls[d].Returned?)
      && s.queue == []
      && (s.shutdown.Open? || s.shutdown.Finished?)
      && s.enqueued == s.delivered + s.failed + s.droppedOldest
  {
    RunsKeepInvariant(cfg, n, states, steps, i);
    AtRest(states[i]);
  }

  lemma AtRest(s: State)
    requires WakeInvariant(s) && Quiescent(s)
    ensures forall d :: 0 <= d < |s.calls| ==> s.calls[d].Idle? || s.calls[d].Returned?
    ensures s.queue == [] && (s.shutdown.Open? || s.shutdown.Finished?)
    ensures s.worker.Parked'? || s.worker.Exited?
  {
    forall d | 0 <= d < |s.calls| ensures s.calls[d].Idle? || s.calls[d].Returned? || s.calls[d].Parked? {
      assert !Enabled(s, CallArm(d)) && !Enabled(s, CallLock(d)) && !Enabled(s, CallPoll(d));
      assert !Enabled(s, CallResume(d)) && !Enabled(s, CallSignal(d));
    }
    assert !Enabled(s, WorkerArm) && !Enabled(s, WorkerLock) && !Enabled(s, WorkerPoll);
    assert !Enabled(s, WorkerResume) && !Enabled(s, WorkerObserve(true));
    assert !s.worker.Signalling'? by {
      if AnyParked(s) {
        var w :| 0 <= w < |s.calls| && s.calls[w].Parked?;
        assert !Enabled(s, WorkerSignal(w));
      } else {
        assert !Enabled(s, WorkerSignal(0));
      }
    }
    assert !Enabled(s, ShutWakeWorker) && !Enabled(s, ShutWakeCalls) && !Enabled(s, ShutJoin);
    assert forall d :: 0 <= d < |s.calls| && s.calls[d].Parked? ==> Blocked(s.calls[d], s.notFull.generation);
  }

  lemma {:induction false} NoAnswer(calls: seq<Call>, o: DispatchOutcome, d: nat)
    requires AnswerCount(calls, o) == 0 && d < |calls|
    ensures !Answers(calls[d], o)
  {
    var n := |calls| - 1;
    if d < n {
      NoAnswer(calls[..n], o, d);
    }
  }

  /** Under the blocking policy an open dispatcher comes to rest only after every started call was
      told its event is enqueued and the observer received that event exactly once. */
  lemma BlockDeliversEverything(cfg: Config, n: nat, states: seq<State>, steps: seq<Step>, i: nat, d: nat)
    requires cfg.capacity > 0 && cfg.policy.Block? && IsRun(cfg, n, states, steps) && i < |states|
    requires Quiescent(states[i]) && states[i].shutdown.Open? && d < |states[i].calls|
    ensures var s := states[i];
      && (s.calls[d].Idle? || s.calls[d] == Returned(Enqueued))
      && (s.calls[d] == Returned(Enqueued) <==> d in s.taken)
      && (forall j, k :: 0 <= j < k < |s.taken| ==> s.taken[j] != s.taken[k])
  {
    var s := states[i];
    RunsKeepInvariant(cfg, n, states, steps, i);
    AtRest(s);
    NoAnswer(s.calls, DroppedNewest, d);
    NoAnswer(s.calls, DroppedOldest, d);
    assert s.taken + [] == s.taken;
  }

  /** After a drained shutdown nothing is queued or in flight: every accepted event was delivered,
      failed or evicted, and without eviction the observer received exactly the accepted order. */
  lemma DrainedShutdown(cfg: Config, n: nat, states: seq<State>, steps: seq<Step>, i: nat)
    requires cfg.capacity > 0 && IsRun(cfg, n, states, steps) && i < |states| && states[i].shutdown.Finished?
    ensures var s := states[i];
      && s.queue == [] && InFlight(s.worker) == 0
      && s.enqueued == s.delivered + s.failed + s.droppedOldest
      && (!cfg.policy.DropOldest? ==> s.taken == s.accepted)
  {
    RunsKeepInvariant(cfg, n, states, steps, i);
    var s := states[i];
    assert s.taken + [] == s.taken;
  }
}
