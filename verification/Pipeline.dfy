/** Blocking interception: decisions, capabilities, pipeline compilation and execution. */
module Pipeline {
  import opened Ordered
  import opened Digraph
  import opened HandlerDiagnostics
  import opened HandlerOrder

  datatype JoinPolicy = All | Any | FirstSuccess

  datatype WakeCondition = AtUnixMilliseconds(time: int) | CommittedEvent(name: string) | Explicit

  /** How a handler failed: its own error, its deadline, or an unsupported decision. */
  datatype Failure = HandlerError(message: string) | Timeout(milliseconds: nat) | UnsupportedDecision(decision: string)

  /** Why a proposal stopped: in a handler's words, or because a handler failed. */
  datatype Reason = Stated(text: string) | FromFailure(handler: Id, failure: Failure)

  datatype Decision<T> =
    | Continue(value: T)
    | Replace(value: T)
    | Reject(reason: Reason)
    | RequireApproval(summary: string, continuation: string)
    | Defer(continuation: string, wakeCondition: WakeCondition)
    | Cancel(reason: Reason)
    | Fork(branches: seq<T>, join: JoinPolicy)

  datatype Capability = CanReplace | CanApprove | CanDefer | CanCancel | CanFork

  function Bit(c: Capability): bv8 {
    match c
    case CanReplace => 1
    case CanApprove => 2
    case CanDefer => 4
    case CanCancel => 8
    case CanFork => 16
  }

  /** A set of optional capabilities as a bit mask. */
  datatype Capabilities = Capabilities(supported: bv8)

  function With(c: Capabilities, capability: Capability): (r: Capabilities)
    ensures forall k :: Supports(r, k) <==> k == capability || Supports(c, k)
  {
    Capabilities(c.supported | Bit(capability))
  }

  predicate Supports(c: Capabilities, capability: Capability) {
    c.supported & Bit(capability) != 0
  }

  /** Continuing and rejecting need no capability; everything else needs its own. */
  predicate Validates<T>(c: Capabilities, d: Decision<T>) {
    match d
    case Continue(_) => true
    case Reject(_) => true
    case Replace(_) => Supports(c, CanReplace)
    case RequireApproval(_, _) => Supports(c, CanApprove)
    case Defer(_, _) => Supports(c, CanDefer)
    case Cancel(_) => Supports(c, CanCancel)
    case Fork(_, _) => Supports(c, CanFork)
  }

  function KindName<T>(d: Decision<T>): string {
    match d
    case Continue(_) => "continue"
    case Replace(_) => "replace"
    case Reject(_) => "reject"
    case RequireApproval(_, _) => "require-approval"
    case Defer(_, _) => "defer"
    case Cancel(_) => "cancel"
    case Fork(_, _) => "fork"
  }

  datatype FailurePolicy = Abort | RejectOnFailure | CancelOnFailure | ContinueUnchanged

  datatype Registration = Registration(ordering: OrderingSpec, timeout: nat, policy: FailurePolicy)

  // ---------------------------------------------------------------- compilation

  datatype Built = Pipeline(registrations: seq<Registration>) | Failed(diagnostics: seq<Diagnostic>)

  function Orderings(rs: seq<Registration>): (specs: seq<OrderingSpec>)
    ensures |specs| == |rs| && forall i :: 0 <= i < |rs| ==> specs[i] == rs[i].ordering
  {
    seq(|rs|, i requires 0 <= i < |rs| => rs[i].ordering)
  }

  /** Each registration exactly once, in the compiled handler order. */
  ghost predicate Arranges(rs: seq<Registration>, hs: seq<Id>, out: seq<Registration>) {
    && |out| == |hs| == |rs|
    && (forall i :: 0 <= i < |out| ==> out[i].ordering.handler == hs[i] && out[i] in rs)
    && forall r :: r in rs ==> r in out
  }

  /** The registrations still to be placed, keyed by handler. */
  ghost predicate Unplaced(rs: seq<Registration>, hs: seq<Id>, i: nat, byId: map<Id, Registration>)
    requires i <= |hs|
  {
    && (forall h :: h in byId ==> byId[h] in rs && byId[h].ordering.handler == h)
    && forall r :: r in rs && r.ordering.handler !in hs[..i] ==>
         r.ordering.handler in byId && byId[r.ordering.handler] == r
  }

  method IndexRegistrations(rs: seq<Registration>) returns (byId: map<Id, Registration>)
    requires UniqueHandlers(Orderings(rs))
    ensures Unplaced(rs, [], 0, byId)
  {
    byId := map[];
    for i := 0 to |rs|
      invariant forall h :: h in byId ==> byId[h] in rs && byId[h].ordering.handler == h
      invariant forall k :: 0 <= k < i ==> rs[k].ordering.handler in byId && byId[rs[k].ordering.handler] == rs[k]
    {
      assert forall k :: 0 <= k < i ==> Orderings(rs)[k].handler != Orderings(rs)[i].handler;
      byId := byId[rs[i].ordering.handler := rs[i]];
    }
  }

  lemma HandlerIsRegistered(rs: seq<Registration>, hs: seq<Id>, h: Id)
    requires IsGreedyOrder(Orderings(rs), hs) && h in hs
    ensures exists r :: r in rs && r.ordering.handler == h
  {
    assert h in Elements(hs);
    var k :| 0 <= k < |Orderings(rs)| && Orderings(rs)[k].handler == h;
    assert rs[k] in rs;
  }

  lemma RegistrationIsOrdered(rs: seq<Registration>, hs: seq<Id>, r: Registration)
    requires IsGreedyOrder(Orderings(rs), hs) && r in rs
    ensures r.ordering.handler in hs
  {
    var k :| 0 <= k < |rs| && rs[k] == r;
    assert Orderings(rs)[k].handler in Known(Orderings(rs));
    assert r.ordering.handler in Elements(hs);
  }

  /** Builds the pipeline: the handler order of the compiler, losing no registration. */
  method CompilePipeline(rs: seq<Registration>) returns (b: Built)
    ensures b.Failed? ==> CompilesTo(Orderings(rs), Rejected(b.diagnostics))
    ensures b.Pipeline? ==> exists hs :: CompilesTo(Orderings(rs), Compiled(hs)) && Arranges(rs, hs, b.registrations)
  {
    var order := CompileOrder(Orderings(rs));
    if order.Rejected? {
      return Failed(order.diagnostics);
    }
    var hs := order.handlers;
    var byId := IndexRegistrations(rs);
    var out: seq<Registration> := [];
    for i := 0 to |hs|
      invariant |out| == i && Unplaced(rs, hs, i, byId)
      invariant forall k :: 0 <= k < i ==> out[k].ordering.handler == hs[k] && out[k] in rs
    {
      var h := hs[i];
      HandlerIsRegistered(rs, hs, h);
      assert h !in hs[..i];
      out := out + [byId[h]];
      byId := byId - {h};
      assert hs[..i + 1] == hs[..i] + [h];
    }
    AllArranged(rs, hs, out);
    assert CompilesTo(Orderings(rs), Compiled(hs)) && Arranges(rs, hs, out);
    return Pipeline(out);
  }

  lemma AllArranged(rs: seq<Registration>, hs: seq<Id>, out: seq<Registration>)
    requires CompilesTo(Orderings(rs), Compiled(hs)) && |out| == |hs|
    requires forall k :: 0 <= k < |out| ==> out[k].ordering.handler == hs[k] && out[k] in rs
    ensures Arranges(rs, hs, out)
  {
    forall r | r in rs ensures r in out {
      RegistrationIsOrdered(rs, hs, r);
      var k :| 0 <= k < |hs| && hs[k] == r.ordering.handler;
      var i :| 0 <= i < |rs| && rs[i] == r;
      var j :| 0 <= j < |rs| && rs[j] == out[k];
      assert Orderings(rs)[i].handler == Orderings(rs)[j].handler;
      assert UniqueHandlers(Orderings(rs));
      assert i == j;
    }
  }

  // ---------------------------------------------------------------- execution

  /** What calling one handler produced. */
  datatype Invocation<T> = Answered(decision: Decision<T>) | Errored(message: string) | TimedOut

  datatype StepResult<T> = Decided(decision: Decision<T>) | Broke(failure: Failure)

  datatype ExecutionStep<T> = ExecutionStep(handler: Id, input: T, result: StepResult<T>)

  datatype ExecutionOutcome<T> = Final(decision: Decision<T>) | Aborted(handler: Id, failure: Failure)

  datatype ExecutionReport<T> = ExecutionReport(steps: seq<ExecutionStep<T>>, outcome: ExecutionOutcome<T>)

  /** What one invocation records: a supported decision, or a classified failure. */
  function Record<T>(r: Registration, c: Capabilities, i: Invocation<T>): StepResult<T> {
    match i
    case Answered(d) => if Validates(c, d) then Decided(d) else Broke(UnsupportedDecision(KindName(d)))
    case Errored(m) => Broke(HandlerError(m))
    case TimedOut => Broke(Timeout(r.timeout))
  }

  /** Whether the pipeline goes on after a step, with which proposal, and otherwise how it ends. */
  datatype After<T> = GoOn(proposal: T) | Stop(outcome: ExecutionOutcome<T>)

  function AfterStep<T>(r: Registration, input: T, result: StepResult<T>): After<T> {
    match result
    case Decided(Continue(v)) => GoOn(v)
    case Decided(Replace(v)) => GoOn(v)
    case Decided(d) => Stop(Final(d))
    case Broke(f) =>
      match r.policy
      case ContinueUnchanged => GoOn(input)
      case RejectOnFailure => Stop(Final(Reject(FromFailure(r.ordering.handler, f))))
      case CancelOnFailure => Stop(Final(Cancel(FromFailure(r.ordering.handler, f))))
      case Abort => Stop(Aborted(r.ordering.handler, f))
  }

  /** The recursive meaning of a pipeline from position `k` on. */
  function Fold<T>(rs: seq<Registration>, c: Capabilities, behave: (nat, T) -> Invocation<T>, k: nat,
                   current: T): ExecutionReport<T>
    requires k <= |rs|
    decreases |rs| - k
  {
    if k == |rs| then ExecutionReport([], Final(Continue(current)))
    else
      var result := Record(rs[k], c, behave(k, current));
      var step := ExecutionStep(rs[k].ordering.handler, current, result);
      match AfterStep(rs[k], current, result)
      case Stop(outcome) => ExecutionReport([step], outcome)
      case GoOn(next) =>
        var rest := Fold(rs, c, behave, k + 1, next);
        ExecutionReport([step] + rest.steps, rest.outcome)
  }

  /** The steps recorded so far, followed by the meaning of the rest, make up the whole report. */
  ghost predicate Leads<T>(whole: ExecutionReport<T>, rs: seq<Registration>, c: Capabilities,
                           behave: (nat, T) -> Invocation<T>, steps: seq<ExecutionStep<T>>, k: nat, current: T)
    requires k <= |rs|
  {
    var rest := Fold(rs, c, behave, k, current);
    whole == ExecutionReport(steps + rest.steps, rest.outcome)
  }

  /** One more recorded step: the report is complete when it stops, and otherwise leads on. */
  lemma StepLeads<T>(whole: ExecutionReport<T>, rs: seq<Registration>, c: Capabilities,
                     behave: (nat, T) -> Invocation<T>, steps: seq<ExecutionStep<T>>, k: nat, current: T,
                     step: ExecutionStep<T>)
    requires k < |rs| && Leads(whole, rs, c, behave, steps, k, current)
    requires step == ExecutionStep(rs[k].ordering.handler, current, Record(rs[k], c, behave(k, current)))
    ensures match AfterStep(rs[k], current, step.result)
      case Stop(outcome) => whole == ExecutionReport(steps + [step], outcome)
      case GoOn(next) => Leads(whole, rs, c, behave, steps + [step], k + 1, next)
  {
    var after := AfterStep(rs[k], current, step.result);
    if after.GoOn? {
      var rest := Fold(rs, c, behave, k + 1, after.proposal);
      assert steps + ([step] + rest.steps) == (steps + [step]) + rest.steps;
    }
  }

  /** The execution loop, for arbitrary handler behaviour. */
  method Execute<T>(rs: seq<Registration>, proposal: T, c: Capabilities, behave: (nat, T) -> Invocation<T>)
    returns (report: ExecutionReport<T>)
    ensures report == Fold(rs, c, behave, 0, proposal)
    ensures Reports(rs, c, behave, 0, proposal, report)
  {
    var current := proposal;
    var steps: seq<ExecutionStep<T>> := [];
    ghost var whole := Fold(rs, c, behave, 0, proposal);
    ReportIsFold(rs, c, behave, 0, proposal, whole);
    assert [] + whole.steps == whole.steps;
    for k := 0 to |rs|
      invariant Leads(whole, rs, c, behave, steps, k, current)
    {
      var r, input := rs[k], current;
      var result := Invoke(r, c, behave(k, input));
      var step := ExecutionStep(r.ordering.handler, input, result);
      StepLeads(whole, rs, c, behave, steps, k, input, step);
      steps := steps + [step];
      match result {
        case Decided(d) =>
          if d.Continue? || d.Replace? {
            current := d.value;
          } else {
            return ExecutionReport(steps, Final(d));
          }
        case Broke(f) =>
          match r.policy {
            case ContinueUnchanged =>
            case RejectOnFailure =>
              return ExecutionReport(steps, Final(Reject(FromFailure(r.ordering.handler, f))));
            case CancelOnFailure =>
              return ExecutionReport(steps, Final(Cancel(FromFailure(r.ordering.handler, f))));
            case Abort =>
              return ExecutionReport(steps, Aborted(r.ordering.handler, f));
          }
      }
    }
    assert steps + [] == steps;
    return ExecutionReport(steps, Final(Continue(current)));
  }

  /** Classifies what one handler produced. */
  method Invoke<T>(r: Registration, c: Capabilities, invocation: Invocation<T>) returns (result: StepResult<T>)
    ensures result == Record(r, c, invocation)
  {
    match invocation
    case Answered(d) =>
      if Validates(c, d) {
        return Decided(d);
      }
      return Broke(UnsupportedDecision(KindName(d)));
    case Errored(m) =>
      return Broke(HandlerError(m));
    case TimedOut =>
      return Broke(Timeout(r.timeout));
  }

  // ---------------------------------------------------------------- main results

  /** The proposal the next handler sees: values carry over, failures leave the input unchanged. */
  function Carried<T>(s: ExecutionStep<T>): T {
    match s.result
    case Decided(Continue(v)) => v
    case Decided(Replace(v)) => v
    case _ => s.input
  }

  /** The step did not stop the pipeline. */
  predicate Passed<T>(r: Registration, s: ExecutionStep<T>) {
    match s.result
    case Decided(d) => d.Continue? || d.Replace?
    case Broke(_) => r.policy.ContinueUnchanged?
  }

  /** A faithful trace from position `k`: handlers in order, each fed the carried proposal and
      recorded as it answered, every step but the last passing. */
  ghost predicate IsTrace<T>(rs: seq<Registration>, c: Capabilities, behave: (nat, T) -> Invocation<T>, k: nat,
                             current: T, steps: seq<ExecutionStep<T>>)
  {
    && k + |steps| <= |rs|
    && (forall i :: 0 <= i < |steps| ==>
          steps[i].handler == rs[k + i].ordering.handler
          && steps[i].result == Record(rs[k + i], c, behave(k + i, steps[i].input)))
    && (|steps| > 0 ==> steps[0].input == current)
    && (forall i :: 0 < i < |steps| ==> steps[i].input == Carried(steps[i - 1]))
    && forall i :: 0 <= i < |steps| - 1 ==> Passed(rs[k + i], steps[i])
  }

  /** How a trace ends determines the outcome, and an outcome is unsupported exactly when a failure
      policy asked for a cancellation the action does not support. */
  ghost predicate EndsWell<T>(rs: seq<Registration>, c: Capabilities, k: nat, current: T, report: ExecutionReport<T>)
    requires k + |report.steps| <= |rs|
  {
    var n := |report.steps|;
    var last := if n == 0 then current else Carried(report.steps[n - 1]);
    var ran := n == |rs| - k && (n > 0 ==> Passed(rs[k + n - 1], report.steps[n - 1]));
    && (report.outcome == Final(Continue(last)) <==> ran)
    && (report.outcome.Final? && report.outcome.decision.Continue? ==> ran)
    && (!ran ==>
          n > 0
          && AfterStep(rs[k + n - 1], report.steps[n - 1].input, report.steps[n - 1].result) == Stop(report.outcome))
    && (report.outcome.Final? && !Validates(c, report.outcome.decision) <==>
          n > 0 && rs[k + n - 1].policy.CancelOnFailure? && report.steps[n - 1].result.Broke?
          && !Supports(c, CanCancel))
  }

  /** Execution runs a prefix of the compiled order as a fold of carried proposals, ends in
      Continue exactly when every handler ran and passed, and respects the capabilities. */
  lemma ExecutionIsFaithful<T>(rs: seq<Registration>, c: Capabilities, behave: (nat, T) -> Invocation<T>,
                               k: nat, current: T)
    requires k <= |rs|
    ensures IsTrace(rs, c, behave, k, current, Fold(rs, c, behave, k, current).steps)
    ensures EndsWell(rs, c, k, current, Fold(rs, c, behave, k, current))
  {
    ExecutionIsTraced(rs, c, behave, k, current);
    ExecutionEndsWell(rs, c, behave, k, current);
  }

  lemma {:induction false} ExecutionIsTraced<T>(rs: seq<Registration>, c: Capabilities,
                                                behave: (nat, T) -> Invocation<T>, k: nat, current: T)
    requires k <= |rs|
    ensures IsTrace(rs, c, behave, k, current, Fold(rs, c, behave, k, current).steps)
    decreases |rs| - k
  {
    if k == |rs| {
    } else {
      var result := Record(rs[k], c, behave(k, current));
      var step := ExecutionStep(rs[k].ordering.handler, current, result);
      var after := AfterStep(rs[k], current, result);
      if after.GoOn? {
        ExecutionIsTraced(rs, c, behave, k + 1, after.proposal);
        var rest := Fold(rs, c, behave, k + 1, after.proposal);
        PrependStep(rs, c, behave, k, current, step, after.proposal, rest.steps);
      }
    }
  }

  lemma {:induction false} ExecutionEndsWell<T>(rs: seq<Registration>, c: Capabilities,
                                                behave: (nat, T) -> Invocation<T>, k: nat, current: T)
    requires k <= |rs|
    ensures k + |Fold(rs, c, behave, k, current).steps| <= |rs|
    ensures EndsWell(rs, c, k, current, Fold(rs, c, behave, k, current))
    decreases |rs| - k
  {
    if k == |rs| {
    } else {
      var after := AfterStep(rs[k], current, Record(rs[k], c, behave(k, current)));
      if after.GoOn? {
        ExecutionEndsWell(rs, c, behave, k + 1, after.proposal);
      }
    }
  }

  lemma PrependStep<T>(rs: seq<Registration>, c: Capabilities, behave: (nat, T) -> Invocation<T>, k: nat, current: T,
                       step: ExecutionStep<T>, next: T, rest: seq<ExecutionStep<T>>)
    requires k < |rs| && IsTrace(rs, c, behave, k + 1, next, rest)
    requires step == ExecutionStep(rs[k].ordering.handler, current, Record(rs[k], c, behave(k, current)))
    requires Passed(rs[k], step) && next == Carried(step)
    ensures IsTrace(rs, c, behave, k, current, [step] + rest)
  {
    var steps := [step] + rest;
    forall i | 0 <= i < |steps|
      ensures steps[i].handler == rs[k + i].ordering.handler
      ensures steps[i].result == Record(rs[k + i], c, behave(k + i, steps[i].input))
    {
      if i > 0 {
        assert steps[i] == rest[i - 1];
        assert k + i == (k + 1) + (i - 1);
      }
    }
    forall i | 0 <= i < |steps| - 1 ensures Passed(rs[k + i], steps[i]) {
      if i > 0 {
        assert Passed(rs[(k + 1) + (i - 1)], rest[i - 1]);
      }
    }
    forall i | 0 < i < |steps| ensures steps[i].input == Carried(steps[i - 1]) {
      if i > 1 {
        assert rest[i - 1].input == Carried(rest[i - 2]);
      }
    }
  }

  // ---------------------------------------------------------------- what a report means

  /** Which capability each kind of decision needs. */
  predicate Permits<T>(c: Capabilities, d: Decision<T>) {
    && (d.Replace? ==> c.supported & 1 != 0)
    && (d.RequireApproval? ==> c.supported & 2 != 0)
    && (d.Defer? ==> c.supported & 4 != 0)
    && (d.Cancel? ==> c.supported & 8 != 0)
    && (d.Fork? ==> c.supported & 16 != 0)
  }

  /** The name under which an unpermitted decision is reported. */
  predicate Named<T>(d: Decision<T>, name: string) {
    && (d.Replace? ==> name == "replace") && (d.RequireApproval? ==> name == "require-approval")
    && (d.Defer? ==> name == "defer") && (d.Cancel? ==> name == "cancel") && (d.Fork? ==> name == "fork")
  }

  /** A step records what its handler produced: a permitted answer as it is, an unpermitted one by its
      name, an error with its message, and a timeout with the registered limit. */
  predicate Records<T(==)>(r: Registration, c: Capabilities, produced: Invocation<T>, step: ExecutionStep<T>) {
    && step.handler == r.ordering.handler
    && (produced.Answered? && Permits(c, produced.decision) ==> step.result == Decided(produced.decision))
    && (produced.Answered? && !Permits(c, produced.decision) ==>
          step.result.Broke? && step.result.failure.UnsupportedDecision?
          && Named(produced.decision, step.result.failure.decision))
    && (produced.Errored? ==> step.result == Broke(HandlerError(produced.message)))
    && (produced.TimedOut? ==> step.result == Broke(Timeout(r.timeout)))
  }

  /** The step passes `next` on: its own value, or its input when its failure is to be ignored. */
  predicate PassesOn<T(==)>(r: Registration, step: ExecutionStep<T>, next: T) {
    || step.result == Decided(Continue(next))
    || step.result == Decided(Replace(next))
    || (step.result.Broke? && r.policy.ContinueUnchanged? && next == step.input)
  }

  /** The step ends the pipeline: a terminal decision as the outcome, and a failure as its policy says,
      under its handler's name. */
  predicate EndsIn<T(==)>(r: Registration, step: ExecutionStep<T>, outcome: ExecutionOutcome<T>) {
    match step.result
    case Decided(d) => !d.Continue? && !d.Replace? && outcome == Final(d)
    case Broke(f) =>
      || (r.policy.Abort? && outcome == Aborted(r.ordering.handler, f))
      || (r.policy.RejectOnFailure? && outcome == Final(Reject(FromFailure(r.ordering.handler, f))))
      || (r.policy.CancelOnFailure? && outcome == Final(Cancel(FromFailure(r.ordering.handler, f))))
  }

  /** A report of the handlers from position `k` on, started with `current`. */
  ghost predicate Reports<T>(rs: seq<Registration>, c: Capabilities, behave: (nat, T) -> Invocation<T>, k: nat,
                             current: T, report: ExecutionReport<T>) {
    && k + |report.steps| <= |rs|
    && (report.steps != [] ==> report.steps[0].input == current)
    && AllRecord(rs, c, behave, k, report.steps) && AllPassOn(rs, k, report.steps)
    && Finishes(rs, k, current, report)
  }

  /** Every step records what its handler produced on the step's input. */
  ghost predicate AllRecord<T>(rs: seq<Registration>, c: Capabilities, behave: (nat, T) -> Invocation<T>, k: nat,
                               steps: seq<ExecutionStep<T>>)
    requires k + |steps| <= |rs|
  {
    forall i :: 0 <= i < |steps| ==> Records(rs[k + i], c, behave(k + i, steps[i].input), steps[i])
  }

  /** Every step but the last passes the next one its input. */
  ghost predicate AllPassOn<T>(rs: seq<Registration>, k: nat, steps: seq<ExecutionStep<T>>)
    requires k + |steps| <= |rs|
  {
    forall i, j :: 0 <= i < j < |steps| && j == i + 1 ==> PassesOn(rs[k + i], steps[i], steps[j].input)
  }

  lemma AllRecordPrepend<T>(rs: seq<Registration>, c: Capabilities, behave: (nat, T) -> Invocation<T>, k: nat,
                            step: ExecutionStep<T>, rest: seq<ExecutionStep<T>>)
    requires k + 1 + |rest| <= |rs| && Records(rs[k], c, behave(k, step.input), step)
    ensures AllRecord(rs, c, behave, k, [step] + rest) <==> AllRecord(rs, c, behave, k + 1, rest)
  {
    var whole := [step] + rest;
    if AllRecord(rs, c, behave, k, whole) {
      forall i | 0 <= i < |rest| ensures Records(rs[k + 1 + i], c, behave(k + 1 + i, rest[i].input), rest[i]) {
        assert Records(rs[k + (i + 1)], c, behave(k + (i + 1), whole[i + 1].input), whole[i + 1]);
        assert k + (i + 1) == k + 1 + i;
      }
    }
    if AllRecord(rs, c, behave, k + 1, rest) {
      forall i | 0 <= i < |whole| ensures Records(rs[k + i], c, behave(k + i, whole[i].input), whole[i]) {
        if i > 0 {
          assert Records(rs[k + 1 + (i - 1)], c, behave(k + 1 + (i - 1), rest[i - 1].input), rest[i - 1]);
          assert k + 1 + (i - 1) == k + i;
        }
      }
    }
  }

  lemma AllPassOnPrepend<T>(rs: seq<Registration>, k: nat, step: ExecutionStep<T>, rest: seq<ExecutionStep<T>>)
    requires k + 1 + |rest| <= |rs| && (rest != [] ==> PassesOn(rs[k], step, rest[0].input))
    ensures AllPassOn(rs, k, [step] + rest) <==> AllPassOn(rs, k + 1, rest)
  {
    var whole := [step] + rest;
    if AllPassOn(rs, k, whole) {
      forall i, j | 0 <= i < j < |rest| && j == i + 1 ensures PassesOn(rs[k + 1 + i], rest[i], rest[j].input) {
        assert PassesOn(rs[k + (i + 1)], whole[i + 1], whole[j + 1].input);
        assert k + (i + 1) == k + 1 + i;
      }
    }
    if AllPassOn(rs, k + 1, rest) {
      forall i, j | 0 <= i < j < |whole| && j == i + 1 ensures PassesOn(rs[k + i], whole[i], whole[j].input) {
        if i > 0 {
          assert PassesOn(rs[k + 1 + (i - 1)], rest[i - 1], rest[j - 1].input);
          assert k + 1 + (i - 1) == k + i;
        }
      }
    }
  }

  /** The last step ends the pipeline, or every handler passed and the carried proposal continues. */
  ghost predicate Finishes<T>(rs: seq<Registration>, k: nat, current: T, report: ExecutionReport<T>)
    requires k + |report.steps| <= |rs|
  {
    var n := |report.steps|;
    || (n > 0 && EndsIn(rs[k + n - 1], report.steps[n - 1], report.outcome))
    || (k + n == |rs| && report.outcome.Final? && report.outcome.decision.Continue?
        && if n == 0 then report.outcome.decision.value == current
           else PassesOn(rs[k + n - 1], report.steps[n - 1], report.outcome.decision.value))
  }

  lemma FinishesPrepend<T>(rs: seq<Registration>, k: nat, current: T, step: ExecutionStep<T>, next: T,
                           rest: ExecutionReport<T>)
    requires k + 1 + |rest.steps| <= |rs| && PassesOn(rs[k], step, next)
    ensures Finishes(rs, k, current, ExecutionReport([step] + rest.steps, rest.outcome))
       <==> Finishes(rs, k + 1, next, rest)
  {
    StepGoesOrEnds(rs[k], step);
    var whole, n := [step] + rest.steps, |rest.steps|;
    assert whole[n] == if n == 0 then step else rest.steps[n - 1];
    assert k + (n + 1) - 1 == k + n == k + 1 + n - 1;
  }

  lemma PermittedIsValid<T>(c: Capabilities, d: Decision<T>)
    ensures Permits(c, d) <==> Validates(c, d)
  {
  }

  lemma RecordedIsRecord<T>(r: Registration, c: Capabilities, produced: Invocation<T>, step: ExecutionStep<T>)
    ensures Records(r, c, produced, step) <==>
      step.handler == r.ordering.handler && step.result == Record(r, c, produced)
  {
    if produced.Answered? {
      PermittedIsValid(c, produced.decision);
    }
  }

  lemma StepGoesOrEnds<T>(r: Registration, step: ExecutionStep<T>)
    ensures forall next :: PassesOn(r, step, next) <==> AfterStep(r, step.input, step.result) == GoOn(next)
    ensures forall o :: EndsIn(r, step, o) <==> AfterStep(r, step.input, step.result) == Stop(o)
  {
  }

  /** A recorded step that passes its proposal on comes before the report of the rest. */
  lemma ReportsPrepend<T>(rs: seq<Registration>, c: Capabilities, behave: (nat, T) -> Invocation<T>, k: nat, current: T,
                          step: ExecutionStep<T>, next: T, rest: ExecutionReport<T>)
    requires k < |rs| && step.input == current && Records(rs[k], c, behave(k, current), step)
    requires PassesOn(rs[k], step, next)
    ensures Reports(rs, c, behave, k, current, ExecutionReport([step] + rest.steps, rest.outcome))
       <==> Reports(rs, c, behave, k + 1, next, rest)
  {
    var whole := [step] + rest.steps;
    StepGoesOrEnds(rs[k], step);
    if k + 1 + |rest.steps| <= |rs| {
      assert AllPassOn(rs, k, whole) && rest.steps != [] ==> PassesOn(rs[k + 0], whole[0], whole[1].input);
      AllRecordPrepend(rs, c, behave, k, step, rest.steps);
      if rest.steps != [] ==> rest.steps[0].input == next {
        AllPassOnPrepend(rs, k, step, rest.steps);
      }
      FinishesPrepend(rs, k, current, step, next, rest);
    }
  }

  /** A report that starts with a step which ends the pipeline is that step and its outcome. */
  lemma ReportsEnd<T>(rs: seq<Registration>, c: Capabilities, behave: (nat, T) -> Invocation<T>, k: nat, current: T,
                      step: ExecutionStep<T>, outcome: ExecutionOutcome<T>, report: ExecutionReport<T>)
    requires k < |rs| && step.input == current && Records(rs[k], c, behave(k, current), step)
    requires EndsIn(rs[k], step, outcome)
    ensures Reports(rs, c, behave, k, current, report) <==> report == ExecutionReport([step], outcome)
  {
    StepGoesOrEnds(rs[k], step);
    if Reports(rs, c, behave, k, current, report) {
      FirstStep(rs, c, behave, k, current, report, step);
      assert |report.steps| > 1 ==> PassesOn(rs[k + 0], report.steps[0], report.steps[1].input);
      assert |report.steps| == 1;
    }
  }

  lemma FirstStep<T>(rs: seq<Registration>, c: Capabilities, behave: (nat, T) -> Invocation<T>, k: nat, current: T,
                     report: ExecutionReport<T>, step: ExecutionStep<T>)
    requires k < |rs| && step.input == current && Records(rs[k], c, behave(k, current), step)
    requires Reports(rs, c, behave, k, current, report)
    ensures |report.steps| > 0 && report.steps[0] == step
  {
    var first := report.steps[0];
    assert Records(rs[k + 0], c, behave(k + 0, first.input), first);
    RecordedIsRecord(rs[k], c, behave(k, current), first);
    RecordedIsRecord(rs[k], c, behave(k, current), step);
  }

  /** There is exactly one report of a pipeline, and the recursive meaning computes it. */
  lemma {:induction false} ReportIsFold<T>(rs: seq<Registration>, c: Capabilities, behave: (nat, T) -> Invocation<T>,
                                           k: nat, current: T, report: ExecutionReport<T>)
    requires k <= |rs|
    ensures Reports(rs, c, behave, k, current, report) <==> report == Fold(rs, c, behave, k, current)
    decreases |rs| - k, 1
  {
    if k == |rs| {
      if Reports(rs, c, behave, k, current, report) {
        assert report == ExecutionReport([], Final(Continue(current)));
      }
    } else {
      var step := ExecutionStep(rs[k].ordering.handler, current, Record(rs[k], c, behave(k, current)));
      RecordedIsRecord(rs[k], c, behave(k, current), step);
      StepGoesOrEnds(rs[k], step);
      match AfterStep(rs[k], current, step.result)
      case Stop(outcome) =>
        ReportsEnd(rs, c, behave, k, current, step, outcome, report);
      case GoOn(next) =>
        ReportGoesOn(rs, c, behave, k, current, report, step, next);
    }
  }

  lemma {:induction false} ReportGoesOn<T>(rs: seq<Registration>, c: Capabilities, behave: (nat, T) -> Invocation<T>,
                                           k: nat, current: T, report: ExecutionReport<T>, step: ExecutionStep<T>,
                                           next: T)
    requires k < |rs| && step == ExecutionStep(rs[k].ordering.handler, current, Record(rs[k], c, behave(k, current)))
    requires Records(rs[k], c, behave(k, current), step) && PassesOn(rs[k], step, next)
    requires AfterStep(rs[k], current, step.result) == GoOn(next)
    ensures Reports(rs, c, behave, k, current, report) <==> report == Fold(rs, c, behave, k, current)
    decreases |rs| - k, 0
  {
    var meaning := Fold(rs, c, behave, k + 1, next);
    if Reports(rs, c, behave, k, current, report) {
      FirstStep(rs, c, behave, k, current, report, step);
      var rest := ExecutionReport(report.steps[1..], report.outcome);
      assert report.steps == [step] + rest.steps;
      ReportsPrepend(rs, c, behave, k, current, step, next, rest);
      ReportIsFold(rs, c, behave, k + 1, next, rest);
    }
    if report == Fold(rs, c, behave, k, current) {
      ReportIsFold(rs, c, behave, k + 1, next, meaning);
      ReportsPrepend(rs, c, behave, k, current, step, next, meaning);
    }
  }

  // ---------------------------------------------------------------- unsupported outcomes

  /** The pipeline ends in a decision that the action does not support. */
  predicate EndsUnsupported<T>(c: Capabilities, report: ExecutionReport<T>) {
    report.outcome.Final? && !Validates(c, report.outcome.decision)
  }

  /** Every handler passes its input on, except that handler `i` fails. */
  function FailingAt<T>(i: nat): (nat, T) -> Invocation<T> {
    (k, proposal) => if k == i then Errored("failed") else Answered(Continue(proposal))
  }

  /** A failing handler with the Cancel policy decides the outcome. */
  lemma {:induction false} FailureCancels<T>(rs: seq<Registration>, c: Capabilities, i: nat, k: nat, current: T)
    requires k <= i < |rs| && rs[i].policy.CancelOnFailure?
    ensures Fold(rs, c, FailingAt(i), k, current).outcome
         == Final(Cancel(FromFailure(rs[i].ordering.handler, HandlerError("failed"))))
    decreases i - k
  {
    if k == i {
      assert FailingAt<T>(i)(k, current) == Errored("failed");
    } else {
      assert FailingAt<T>(i)(k, current) == Answered(Continue(current));
      FailureCancels(rs, c, i, k + 1, current);
    }
  }

  /** The promise that every outcome is supported fails of some handler behaviour exactly when the
      action does not support cancellation and some registration has the Cancel failure policy. */
  lemma UnsupportedOutcomeIff<T(!new)>(rs: seq<Registration>, c: Capabilities, current: T)
    ensures (exists behave: (nat, T) -> Invocation<T> :: EndsUnsupported(c, Fold(rs, c, behave, 0, current)))
       <==> !Supports(c, CanCancel) && exists r :: r in rs && r.policy.CancelOnFailure?
  {
    if behave: (nat, T) -> Invocation<T> :| EndsUnsupported(c, Fold(rs, c, behave, 0, current)) {
      ExecutionIsFaithful(rs, c, behave, 0, current);
      var n := |Fold(rs, c, behave, 0, current).steps|;
      assert rs[n - 1] in rs;
    }
    if !Supports(c, CanCancel) && exists r :: r in rs && r.policy.CancelOnFailure? {
      var i :| 0 <= i < |rs| && rs[i].policy.CancelOnFailure?;
      FailureCancels(rs, c, i, 0, current);
      assert EndsUnsupported(c, Fold(rs, c, FailingAt(i), 0, current));
    }
  }

  /** A failing input: one handler under the Cancel policy fails, and no capability is declared. */
  lemma UnsupportedCancelHappens(handler: OrderingSpec, timeout: nat)
    ensures var rs := [Registration(handler, timeout, CancelOnFailure)];
      EndsUnsupported(Capabilities(0), Fold(rs, Capabilities(0), FailingAt(0), 0, 7))
  {
    FailureCancels([Registration(handler, timeout, CancelOnFailure)], Capabilities(0), 0, 0, 7);
  }
}
