/** The agent loop: folding model responses, tool results and failures into the session context,
    and asking the model again once per settled batch of tool calls. */
module ChatContext {
  import opened Ordered

  /** Messages of the context section; an assistant message may carry the calls of its turn. */
  datatype Message = UserText | Assistant(calls: seq<Id>) | ToolAnswer(call: Id)

  datatype Publication = ModelRequest | ToolCall(call: Id) | ToolCallRejected(call: Id) | AssistantMessage

  /** A call the model wrote; `rejected` when its name or arguments cannot be published. */
  datatype Call = Call(id: Id, rejected: bool)

  /** `stopsCall` tells whether a failed invocation leaves its tool call unanswered: the tool itself
      failed, or a blocking gate did. */
  datatype Event =
    | UserMessage
    | ModelResponse(calls: seq<Call>)
    | ToolResult(call: Id)
    | InvocationFailed(call: Id, stopsCall: bool)

  /** What one event adds to the context and publishes. */
  datatype Reaction = Reaction(added: seq<Message>, published: seq<Publication>)

  // ---------------------------------------------------------------- reactions

  /** The call identifiers of the latest assistant message that carries calls as its latest turn. */
  function LatestCalls(context: seq<Message>): Option<seq<Id>> {
    if context == [] then None
    else
      var m := context[|context| - 1];
      if m.Assistant? then (if m.calls == [] then None else Some(m.calls))
      else LatestCalls(context[..|context| - 1])
  }

  function Answered(context: seq<Message>): set<Id> {
    set m | m in context && m.ToolAnswer? :: m.call
  }

  function IdsOf(calls: seq<Call>): (ids: seq<Id>)
    ensures |ids| == |calls| && forall i :: 0 <= i < |ids| ==> ids[i] == calls[i].id
  {
    seq(|calls|, i requires 0 <= i < |calls| => calls[i].id)
  }

  predicate AllIn(ids: seq<Id>, s: set<Id>) {
    forall i :: 0 <= i < |ids| ==> ids[i] in s
  }

  /** Inline answers, in call order. */
  function Rejections(calls: seq<Call>): seq<Message> {
    if calls == [] then []
    else Rejections(calls[..|calls| - 1])
         + (if calls[|calls| - 1].rejected then [ToolAnswer(calls[|calls| - 1].id)] else [])
  }

  function Dispatches(calls: seq<Call>): seq<Publication> {
    if calls == [] then []
    else Dispatches(calls[..|calls| - 1])
         + [if calls[|calls| - 1].rejected then ToolCallRejected(calls[|calls| - 1].id)
            else ToolCall(calls[|calls| - 1].id)]
  }

  /** Asks the model again when every wanted call is answered. */
  function Settle(context: seq<Message>, now: Id, wanted: seq<Id>): seq<Publication> {
    if wanted != [] && AllIn(wanted, Answered(context) + {now}) then [ModelRequest] else []
  }

  /** The reaction to an event delivered with a context snapshot. */
  function React(context: seq<Message>, e: Event): Reaction {
    match e
    case UserMessage => Reaction([UserText], [ModelRequest])
    case ModelResponse(calls) =>
      if calls == [] then Reaction([Assistant([])], [AssistantMessage])
      else Reaction([Assistant(IdsOf(calls))] + Rejections(calls),
                    Dispatches(calls) + (if |Rejections(calls)| == |calls| then [ModelRequest] else []))
    case ToolResult(id) =>
      var wanted := match LatestCalls(context) case Some(ids) => ids case None => [id];
      Reaction([ToolAnswer(id)],
               if id !in wanted || id in Answered(context) then [] else Settle(context, id, wanted))
    case InvocationFailed(id, stopsCall) =>
      if !stopsCall || id in Answered(context) then Reaction([], [])
      else
        var wanted := match LatestCalls(context) case Some(ids) => ids case None => [];
        Reaction([ToolAnswer(id)], [ToolCallRejected(id)] + Settle(context, id, wanted))
  }

  // ---------------------------------------------------------------- what the handlers promise

  /** `ids` are the calls of the last assistant message. */
  ghost predicate LastTurn(context: seq<Message>, ids: seq<Id>) {
    exists i :: 0 <= i < |context| && context[i] == Assistant(ids) && NoTurnAfter(context, i)
  }

  ghost predicate NoTurnAfter(context: seq<Message>, i: int) {
    forall j :: 0 <= j < |context| && i < j ==> !context[j].Assistant?
  }

  /** A response of plain text is passed on. Otherwise each call in turn is dispatched, or announced
      as rejected, and the model is asked again when all are rejected. */
  ghost predicate Announced(calls: seq<Call>, said: seq<Publication>) {
    if calls == [] then said == [AssistantMessage]
    else
      && |said| == |calls| + (if AllRejected(calls) then 1 else 0)
      && (forall i :: 0 <= i < |calls| && calls[i].rejected ==> said[i] == ToolCallRejected(calls[i].id))
      && (forall i :: 0 <= i < |calls| && !calls[i].rejected ==> said[i] == ToolCall(calls[i].id))
      && (AllRejected(calls) ==> said[|calls|] == ModelRequest)
  }

  /** The positions of the rejected calls, ascending. */
  ghost predicate RejectedAt(calls: seq<Call>, at: seq<nat>) {
    && (forall k :: 0 <= k < |at| ==> at[k] < |calls| && calls[at[k]].rejected)
    && (forall k, l :: 0 <= k < l < |at| ==> at[k] < at[l])
    && (forall i: nat :: i < |calls| && calls[i].rejected ==> i in at)
  }

  ghost predicate AnswersAt(calls: seq<Call>, answers: seq<Message>, at: seq<nat>) {
    && RejectedAt(calls, at) && |answers| == |at|
    && forall k :: 0 <= k < |at| ==> answers[k] == ToolAnswer(calls[at[k]].id)
  }

  /** The answers are those to the rejected calls, one each, in call order. */
  ghost predicate AnsweredInline(calls: seq<Call>, answers: seq<Message>) {
    exists at :: AnswersAt(calls, answers, at)
  }

  /** What a response adds: the turn with its calls, and the answers to those rejected. */
  ghost predicate TurnAdded(calls: seq<Call>, added: seq<Message>) {
    && added != [] && added[0].Assistant? && |added[0].calls| == |calls|
    && (forall i :: 0 <= i < |calls| ==> added[0].calls[i] == calls[i].id)
    && AnsweredInline(calls, added[1..])
  }

  /** A response adds its turn to the context and its announcements to what is published. */
  ghost predicate Responded(calls: seq<Call>, before: seq<Message>, context: seq<Message>,
                            earlier: seq<Publication>, published: seq<Publication>) {
    && before <= context && TurnAdded(calls, context[|before|..])
    && earlier <= published && Announced(calls, published[|earlier|..])
  }

  /** Each listed call is answered, now or before. */
  predicate AnsweredWith(context: seq<Message>, ids: seq<Id>, now: Id) {
    forall id :: id in ids && id != now ==> ToolAnswer(id) in context
  }

  /** The last turn carries the calls `ids`, and with an answer to `now` all of them are answered. */
  ghost predicate TurnIsAnsweredWith(context: seq<Message>, ids: seq<Id>, now: Id) {
    ids != [] && LastTurn(context, ids) && AnsweredWith(context, ids, now)
  }

  /** The result is the first of its call, and the last turn carries no calls, or carries this one
      and no other open call. */
  ghost predicate AsksAfterResult(context: seq<Message>, id: Id) {
    && ToolAnswer(id) !in context
    && ((forall ids :: LastTurn(context, ids) ==> ids == [])
        || exists ids :: TurnIsAnsweredWith(context, ids, id) && id in ids)
  }

  /** The last turn carries calls, and all are answered with this one. */
  ghost predicate AsksAfterFailure(context: seq<Message>, id: Id) {
    exists ids :: TurnIsAnsweredWith(context, ids, id)
  }

  lemma {:induction false} LatestIsLastTurn(context: seq<Message>, ids: seq<Id>)
    ensures LatestCalls(context) == Some(ids) <==> LastTurn(context, ids) && ids != []
  {
    if context == [] {
    } else {
      var n := |context| - 1;
      if context[n].Assistant? {
        assert NoTurnAfter(context, n);
      } else {
        LatestIsLastTurn(context[..n], ids);
        if LastTurn(context, ids) {
          var i :| 0 <= i < |context| && context[i] == Assistant(ids) && NoTurnAfter(context, i);
          assert context[..n][i] == Assistant(ids) && NoTurnAfter(context[..n], i);
        }
        if LastTurn(context[..n], ids) {
          var i :| 0 <= i < n && context[..n][i] == Assistant(ids) && NoTurnAfter(context[..n], i);
          assert NoTurnAfter(context, i) by {
            forall j | 0 <= j < |context| && i < j ensures !context[j].Assistant? {
              assert j < n ==> context[..n][j] == context[j];
            }
          }
        }
      }
    }
  }

  lemma {:induction false} DispatchesAnnounce(calls: seq<Call>)
    ensures |Dispatches(calls)| == |calls|
    ensures forall i :: 0 <= i < |calls| && calls[i].rejected ==> Dispatches(calls)[i] == ToolCallRejected(calls[i].id)
    ensures forall i :: 0 <= i < |calls| && !calls[i].rejected ==> Dispatches(calls)[i] == ToolCall(calls[i].id)
  {
    if calls == [] {
    } else {
      DispatchesAnnounce(calls[..|calls| - 1]);
    }
  }

  lemma {:induction false} RejectionsAnswerInline(calls: seq<Call>) returns (at: seq<nat>)
    ensures AnswersAt(calls, Rejections(calls), at)
  {
    if calls == [] {
      at := [];
    } else {
      var n: nat := |calls| - 1;
      var before := RejectionsAnswerInline(calls[..n]);
      at := if calls[n].rejected then before + [n] else before;
      RejectedOneMore(calls, before);
      AnswersOneMore(calls, Rejections(calls[..n]), before);
    }
  }

  lemma AnswersOneMore(calls: seq<Call>, answers: seq<Message>, before: seq<nat>)
    requires calls != [] && |answers| == |before|
    requires forall k :: 0 <= k < |before| ==> before[k] < |calls| - 1
    requires forall k :: 0 <= k < |before| ==> answers[k] == ToolAnswer(calls[..|calls| - 1][before[k]].id)
    ensures var last := calls[|calls| - 1];
      forall k :: 0 <= k < |before| + 1 ==>
        (answers + [ToolAnswer(last.id)])[k] == ToolAnswer(calls[(before + [|calls| - 1])[k]].id)
    ensures forall k :: 0 <= k < |before| ==> answers[k] == ToolAnswer(calls[before[k]].id)
  {
  }

  lemma RejectedOneMore(calls: seq<Call>, before: seq<nat>)
    requires calls != [] && RejectedAt(calls[..|calls| - 1], before)
    ensures RejectedAt(calls, if calls[|calls| - 1].rejected then before + [|calls| - 1] else before)
  {
    var n: nat := |calls| - 1;
    var at := if calls[n].rejected then before + [n] else before;
    forall i: nat | i < |calls| && calls[i].rejected ensures i in at {
      if i < n {
        assert calls[..n][i].rejected;
        assert i in before;
      } else {
        assert at[|before|] == i;
      }
    }
  }

  lemma ResponseAnnounces(context: seq<Message>, calls: seq<Call>)
    ensures Announced(calls, React(context, ModelResponse(calls)).published)
    ensures TurnAdded(calls, React(context, ModelResponse(calls)).added)
  {
    RejectionsCount(calls);
    DispatchesAnnounce(calls);
    var at := RejectionsAnswerInline(calls);
    var added := React(context, ModelResponse(calls)).added;
    assert added[1..] == Rejections(calls);
  }

  lemma OneMoreCall(calls: seq<Call>, i: nat)
    requires i < |calls|
    ensures var c := calls[i];
      && Rejections(calls[..i + 1]) == Rejections(calls[..i]) + (if c.rejected then [ToolAnswer(c.id)] else [])
      && Dispatches(calls[..i + 1])
         == Dispatches(calls[..i]) + [if c.rejected then ToolCallRejected(c.id) else ToolCall(c.id)]
  {
    assert calls[..i + 1][..i] == calls[..i];
  }

  lemma Joined<T>(s: seq<T>, t: seq<T>, u: seq<T>)
    ensures s + t + u == s + (t + u) && s + [] == s
  {
  }

  lemma ResponseReaction(context: seq<Message>, published: seq<Publication>, calls: seq<Call>)
    ensures var reaction := React(context, ModelResponse(calls));
      Responded(calls, context, context + reaction.added, published, published + reaction.published)
  {
    var reaction := React(context, ModelResponse(calls));
    ResponseAnnounces(context, calls);
    assert (published + reaction.published)[|published|..] == reaction.published;
    assert (context + reaction.added)[|context|..] == reaction.added;
  }

  lemma AnsweredIsListed(context: seq<Message>, id: Id)
    ensures id in Answered(context) <==> ToolAnswer(id) in context
  {
  }

  lemma AllInIsAnsweredWith(context: seq<Message>, ids: seq<Id>, now: Id)
    ensures AllIn(ids, Answered(context) + {now}) <==> AnsweredWith(context, ids, now)
  {
    if AnsweredWith(context, ids, now) {
      forall i | 0 <= i < |ids| ensures ids[i] in Answered(context) + {now} {
        assert ids[i] in ids;
        AnsweredIsListed(context, ids[i]);
      }
    }
    if AllIn(ids, Answered(context) + {now}) {
      forall id | id in ids && id != now ensures ToolAnswer(id) in context {
        AnsweredIsListed(context, id);
      }
    }
  }

  lemma TurnIsAnsweredWhen(context: seq<Message>, id: Id)
    ensures (exists ids :: TurnIsAnsweredWith(context, ids, id)) <==>
      LatestCalls(context).Some? && AllIn(LatestCalls(context).value, Answered(context) + {id})
    ensures forall ids :: TurnIsAnsweredWith(context, ids, id) ==> LatestCalls(context) == Some(ids)
    ensures LatestCalls(context).None? <==> forall ids :: LastTurn(context, ids) ==> ids == []
  {
    forall ids ensures LatestCalls(context) == Some(ids) <==> LastTurn(context, ids) && ids != [] {
      LatestIsLastTurn(context, ids);
    }
    forall ids ensures AllIn(ids, Answered(context) + {id}) <==> AnsweredWith(context, ids, id) {
      AllInIsAnsweredWith(context, ids, id);
    }
    if LatestCalls(context).Some? {
      var ids := LatestCalls(context).value;
      assert LastTurn(context, ids);
      assert AllIn(ids, Answered(context) + {id}) <==> TurnIsAnsweredWith(context, ids, id);
    }
  }

  lemma ResultAsks(context: seq<Message>, id: Id)
    ensures React(context, ToolResult(id)).published == if AsksAfterResult(context, id) then [ModelRequest] else []
  {
    TurnIsAnsweredWhen(context, id);
    AnsweredIsListed(context, id);
    if LatestCalls(context).Some? {
      LatestIsNonempty(context);
    }
  }

  lemma FailureAsks(context: seq<Message>, id: Id)
    requires ToolAnswer(id) !in context
    ensures React(context, InvocationFailed(id, true)).published
         == [ToolCallRejected(id)] + (if AsksAfterFailure(context, id) then [ModelRequest] else [])
  {
    TurnIsAnsweredWhen(context, id);
    AnsweredIsListed(context, id);
    if LatestCalls(context).Some? {
      LatestIsNonempty(context);
    }
  }

  // ---------------------------------------------------------------- the plugin

  /** A session the plugin is attached to. Each handler reads the snapshot taken when its event was
      delivered; what it adds becomes visible with the next event. */
  class Session {
    var context: seq<Message>
    var published: seq<Publication>

    constructor ()
      ensures context == [] && published == []
    {
      context, published := [], [];
    }

    method CollectAnswered(snapshot: seq<Message>) returns (answered: set<Id>)
      ensures answered == Answered(snapshot)
    {
      answered := {};
      for i := 0 to |snapshot|
        invariant answered == Answered(snapshot[..i])
      {
        assert snapshot[..i + 1] == snapshot[..i] + [snapshot[i]];
        if snapshot[i].ToolAnswer? {
          answered := answered + {snapshot[i].call};
        }
      }
      assert snapshot[..|snapshot|] == snapshot;
    }

    method FindLatestCalls(snapshot: seq<Message>) returns (r: Option<seq<Id>>)
      ensures r == LatestCalls(snapshot)
    {
      var i := |snapshot|;
      assert snapshot[..i] == snapshot;
      while i > 0
        invariant 0 <= i <= |snapshot| && LatestCalls(snapshot) == LatestCalls(snapshot[..i])
      {
        var m := snapshot[i - 1];
        assert snapshot[..i][..i - 1] == snapshot[..i - 1];
        if m.Assistant? {
          return if m.calls == [] then None else Some(m.calls);
        }
        i := i - 1;
      }
      return None;
    }

    method SettleBatch(snapshot: seq<Message>, now: Id, wanted: seq<Id>)
      modifies this`published
      ensures published == old(published) + Settle(snapshot, now, wanted)
    {
      var answered := CollectAnswered(snapshot);
      answered := answered + {now};
      if wanted == [] {
        return;
      }
      for i := 0 to |wanted|
        invariant published == old(published) && forall k :: 0 <= k < i ==> wanted[k] in answered
      {
        if wanted[i] !in answered {
          return;
        }
      }
      published := published + [ModelRequest];
    }

    method AnswerInline(id: Id)
      modifies this
      ensures context == old(context) + [ToolAnswer(id)]
      ensures published == old(published) + [ToolCallRejected(id)]
    {
      context := context + [ToolAnswer(id)];
      published := published + [ToolCallRejected(id)];
    }

    /** Each call is dispatched, or answered inline, in turn. */
    method DispatchCalls(calls: seq<Call>) returns (rejected: nat)
      modifies this
      ensures context == old(context) + Rejections(calls) && published == old(published) + Dispatches(calls)
      ensures rejected == |Rejections(calls)|
    {
      rejected := 0;
      for i := 0 to |calls|
        invariant context == old(context) + Rejections(calls[..i])
        invariant published == old(published) + Dispatches(calls[..i])
        invariant rejected == |Rejections(calls[..i])|
      {
        OneMoreCall(calls, i);
        if calls[i].rejected {
          AnswerInline(calls[i].id);
          rejected := rejected + 1;
        } else {
          published := published + [ToolCall(calls[i].id)];
        }
      }
      assert calls[..|calls|] == calls;
    }

    method OnModelResponse(calls: seq<Call>)
      modifies this
      ensures context == old(context) + React(old(context), ModelResponse(calls)).added
      ensures published == old(published) + React(old(context), ModelResponse(calls)).published
      ensures Responded(calls, old(context), context, old(published), published)
    {
      ResponseReaction(context, published, calls);
      context := context + [Assistant(IdsOf(calls))];
      if calls == [] {
        published := published + [AssistantMessage];
        return;
      }
      var rejected := DispatchCalls(calls);
      Joined(old(context), [Assistant(IdsOf(calls))], Rejections(calls));
      if rejected == |calls| {
        published := published + [ModelRequest];
      }
      Joined(old(published), Dispatches(calls), if rejected == |calls| then [ModelRequest] else []);
    }

    method OnToolResult(id: Id)
      modifies this
      ensures context == old(context) + React(old(context), ToolResult(id)).added
      ensures published == old(published) + React(old(context), ToolResult(id)).published
      ensures context == old(context) + [ToolAnswer(id)]
      ensures published == old(published) + (if AsksAfterResult(old(context), id) then [ModelRequest] else [])
    {
      ResultAsks(context, id);
      var snapshot := context;
      context := context + [ToolAnswer(id)];
      var latest := FindLatestCalls(snapshot);
      var wanted := if latest.Some? then latest.value else [id];
      if id !in wanted {
        return;
      }
      var answered := CollectAnswered(snapshot);
      if id in answered {
        return;
      }
      SettleBatch(snapshot, id, wanted);
    }

    method OnInvocationFailed(id: Id, stopsCall: bool)
      modifies this
      ensures context == old(context) + React(old(context), InvocationFailed(id, stopsCall)).added
      ensures published == old(published) + React(old(context), InvocationFailed(id, stopsCall)).published
      ensures !stopsCall || ToolAnswer(id) in old(context) ==> context == old(context) && published == old(published)
      ensures stopsCall && ToolAnswer(id) !in old(context) ==> context == old(context) + [ToolAnswer(id)]
      ensures stopsCall && ToolAnswer(id) !in old(context) ==>
        published == old(published) + [ToolCallRejected(id)]
                     + (if AsksAfterFailure(old(context), id) then [ModelRequest] else [])
    {
      AnsweredIsListed(context, id);
      if stopsCall && ToolAnswer(id) !in context {
        FailureAsks(context, id);
      }
      var snapshot := context;
      if !stopsCall {
        return;
      }
      var answered := CollectAnswered(snapshot);
      if id in answered {
        return;
      }
      AnswerInline(id);
      var latest := FindLatestCalls(snapshot);
      SettleBatch(snapshot, id, if latest.Some? then latest.value else []);
    }

    method OnUserMessage()
      modifies this
      ensures context == old(context) + React(old(context), UserMessage).added
      ensures published == old(published) + React(old(context), UserMessage).published
      ensures context == old(context) + [UserText] && published == old(published) + [ModelRequest]
    {
      context := context + [UserText];
      published := published + [ModelRequest];
    }
  }

  // ---------------------------------------------------------------- runs

  /** The context after a sequence of events. */
  function ContextAfter(context: seq<Message>, events: seq<Event>): seq<Message> {
    if events == [] then context
    else
      var before := ContextAfter(context, events[..|events| - 1]);
      before + React(before, events[|events| - 1]).added
  }

  /** The event asked the model to go on because its batch settled: a user turn does not. */
  predicate Settles(context: seq<Message>, e: Event) {
    !e.UserMessage? && ModelRequest in React(context, e).published
  }

  /** How many events of the sequence satisfy `p` in the context they find. */
  function Count(context: seq<Message>, events: seq<Event>, p: (seq<Message>, Event) -> bool): nat {
    if events == [] then 0
    else
      var n := |events| - 1;
      Count(context, events[..n], p) + (if p(ContextAfter(context, events[..n]), events[n]) then 1 else 0)
  }

  /** The context after one event. */
  function After(context: seq<Message>, e: Event): seq<Message> {
    context + React(context, e).added
  }

  // ---------------------------------------------------------------- why an event settles

  /** The batch is the latest assistant turn. */
  ghost predicate IsLatest(context: seq<Message>, ids: seq<Id>) {
    LatestCalls(context) == Some(ids)
  }

  /** A model response whose calls are all rejected inline. */
  predicate RejectedOutright(context: seq<Message>, e: Event) {
    e.ModelResponse? && e.calls != [] && AllRejected(e.calls)
  }

  /** The event answers the last open call of the latest turn. */
  predicate Completes(context: seq<Message>, e: Event) {
    && !e.ModelResponse? && LatestCalls(context).Some?
    && AllIn(LatestCalls(context).value, Answered(After(context, e)))
    && !AllIn(LatestCalls(context).value, Answered(context))
  }

  /** A first failure report, of a call outside the latest turn, after that turn is answered. */
  predicate StrayFailure(context: seq<Message>, e: Event) {
    && e.InvocationFailed? && e.stopsCall && e.call !in Answered(context)
    && LatestCalls(context).Some? && AllIn(LatestCalls(context).value, Answered(context))
  }

  /** A first result of a call when the latest turn carries no calls. */
  predicate OrphanResult(context: seq<Message>, e: Event) {
    e.ToolResult? && e.call !in Answered(context) && LatestCalls(context).None?
  }

  lemma AnsweredGrows(context: seq<Message>, more: seq<Message>)
    ensures Answered(context + more) == Answered(context) + Answered(more)
  {
  }

  lemma AnswersOne(id: Id)
    ensures Answered([ToolAnswer(id)]) == {id} && Answered([]) == {} && Answered([UserText]) == {}
  {
    assert ToolAnswer(id) in [ToolAnswer(id)];
  }

  lemma {:induction false} LatestKept(context: seq<Message>, more: seq<Message>)
    requires forall m :: m in more ==> !m.Assistant?
    ensures LatestCalls(context + more) == LatestCalls(context)
  {
    if more == [] {
      assert context + more == context;
    } else {
      var n := |more| - 1;
      LatestKept(context, more[..n]);
      assert (context + more)[..|context + more| - 1] == context + more[..n];
      assert more[n] in more;
    }
  }

  lemma OneMoreAnswer(answered: set<Id>, ids: seq<Id>, id: Id)
    ensures id in answered || id !in ids ==> (AllIn(ids, answered + {id}) <==> AllIn(ids, answered))
    ensures id !in answered && id in ids ==> !AllIn(ids, answered)
  {
    if id !in ids && AllIn(ids, answered + {id}) {
      forall i | 0 <= i < |ids| ensures ids[i] in answered {
        assert ids[i] in ids;
      }
    }
  }

  /** An event other than a response keeps the latest turn, and keeps what is answered. */
  lemma TurnKept(context: seq<Message>, e: Event)
    requires !e.ModelResponse?
    ensures LatestCalls(After(context, e)) == LatestCalls(context)
    ensures Answered(After(context, e)) == Answered(context) + Answered(React(context, e).added)
  {
    LatestKept(context, React(context, e).added);
    AnsweredGrows(context, React(context, e).added);
  }

  lemma {:induction false} LatestIsNonempty(context: seq<Message>)
    requires LatestCalls(context).Some?
    ensures LatestCalls(context).value != []
  {
    if context[|context| - 1].Assistant? {
    } else {
      LatestIsNonempty(context[..|context| - 1]);
    }
  }

  /** The latest turn becomes complete exactly when its only open call is answered. */
  lemma CompletesWhen(context: seq<Message>, e: Event, ids: seq<Id>, id: Id)
    requires !e.ModelResponse? && IsLatest(context, ids) && React(context, e).added == [ToolAnswer(id)]
    ensures Completes(context, e) <==>
      id !in Answered(context) && id in ids && AllIn(ids, Answered(context) + {id})
  {
    TurnKept(context, e);
    AnswersOne(id);
    OneMoreAnswer(Answered(context), ids, id);
  }

  lemma ResultSettlesWhen(context: seq<Message>, id: Id)
    ensures var e := ToolResult(id);
      Settles(context, e) <==> Completes(context, e) || OrphanResult(context, e)
  {
    if LatestCalls(context).Some? {
      LatestIsNonempty(context);
      CompletesWhen(context, ToolResult(id), LatestCalls(context).value, id);
    }
  }

  lemma FailureSettlesWhen(context: seq<Message>, id: Id, stopsCall: bool)
    ensures var e := InvocationFailed(id, stopsCall);
      Settles(context, e) <==> Completes(context, e) || StrayFailure(context, e)
  {
    var e := InvocationFailed(id, stopsCall);
    if !stopsCall || id in Answered(context) {
      TurnKept(context, e);
      AnswersOne(id);
    } else if LatestCalls(context).Some? {
      LatestIsNonempty(context);
      CompletesWhen(context, e, LatestCalls(context).value, id);
      OneMoreAnswer(Answered(context), LatestCalls(context).value, id);
    }
  }

  /** In any context an event settles exactly when it answers the last open call of the latest turn,
      rejects a whole response inline, is a stray failure, or is an orphan result; and for one reason
      only. */
  lemma EventSettlesWhen(context: seq<Message>, e: Event)
    ensures Settles(context, e) <==>
      Completes(context, e) || RejectedOutright(context, e) || StrayFailure(context, e) || OrphanResult(context, e)
    ensures !(Completes(context, e) && StrayFailure(context, e))
  {
    match e
    case UserMessage =>
      TurnKept(context, e);
      AnswersOne(Id(""));
    case ModelResponse(calls) =>
      RejectionsCount(calls);
      DispatchesAskNothing(calls);
    case ToolResult(id) =>
      ResultSettlesWhen(context, id);
    case InvocationFailed(id, stopsCall) =>
      FailureSettlesWhen(context, id, stopsCall);
  }

  /** Every settlement of every run is accounted for by one of the four reasons. */
  lemma {:induction false} SettlementsAddUp(context: seq<Message>, events: seq<Event>)
    ensures Count(context, events, Settles)
         == Count(context, events, Completes) + Count(context, events, RejectedOutright)
          + Count(context, events, StrayFailure) + Count(context, events, OrphanResult)
  {
    if events == [] {
    } else {
      var n := |events| - 1;
      SettlementsAddUp(context, events[..n]);
      EventSettlesWhen(ContextAfter(context, events[..n]), events[n]);
    }
  }

  // ---------------------------------------------------------------- one batch

  /** Distinct calls, none of them answered before. */
  ghost predicate FreshBatch(context: seq<Message>, calls: seq<Call>) {
    && calls != []
    && (forall i, j :: 0 <= i < j < |calls| ==> calls[i].id != calls[j].id)
    && forall i :: 0 <= i < |calls| ==> calls[i].id !in Answered(context)
  }

  function Done(context: seq<Message>, ids: seq<Id>): nat {
    if AllIn(ids, Answered(context)) then 1 else 0
  }

  /** The event reports on a call of the batch. */
  predicate Own(ids: seq<Id>, e: Event) {
    (e.ToolResult? || e.InvocationFailed?) && e.call in ids
  }

  /** A report on a call of the batch that settles. */
  function OwnSettles(ids: seq<Id>): (seq<Message>, Event) -> bool {
    (context, e) => Own(ids, e) && Settles(context, e)
  }

  /** No newer assistant message is added before the batch is done. */
  ghost predicate UndisturbedUntilDone(context: seq<Message>, ids: seq<Id>, events: seq<Event>) {
    forall i :: 0 <= i < |events| && events[i].ModelResponse? ==>
      AllIn(ids, Answered(ContextAfter(context, events[..i])))
  }

  /** What one event does to a batch that is done, or is still the latest turn: the batch stays so,
      and a report on it settles exactly when it makes the batch done. */
  lemma OwnStep(context: seq<Message>, ids: seq<Id>, e: Event)
    requires AllIn(ids, Answered(context)) || (IsLatest(context, ids) && !e.ModelResponse?)
    ensures var after := After(context, e);
      && (AllIn(ids, Answered(after)) || IsLatest(after, ids))
      && (if Own(ids, e) && Settles(context, e) then 1 else 0) + Done(context, ids) == Done(after, ids)
  {
    AnsweredGrows(context, React(context, e).added);
    EventSettlesWhen(context, e);
    if !e.ModelResponse? {
      TurnKept(context, e);
    }
    if AllIn(ids, Answered(context)) {
      if Own(ids, e) {
        assert e.call in Answered(context);
      }
    } else if e.UserMessage? {
      AnswersOne(Id(""));
    } else {
      AnswersOne(e.call);
      OneMoreAnswer(Answered(context), ids, e.call);
    }
  }

  lemma UndisturbedBefore(context: seq<Message>, ids: seq<Id>, events: seq<Event>, n: nat)
    requires UndisturbedUntilDone(context, ids, events) && n <= |events|
    ensures UndisturbedUntilDone(context, ids, events[..n])
  {
    forall i | 0 <= i < n && events[..n][i].ModelResponse?
      ensures AllIn(ids, Answered(ContextAfter(context, events[..n][..i])))
    {
      assert events[..n][..i] == events[..i];
    }
  }

  lemma {:induction false} OwnSettlementsAfter(context: seq<Message>, ids: seq<Id>, events: seq<Event>)
    requires IsLatest(context, ids) && UndisturbedUntilDone(context, ids, events)
    ensures var after := ContextAfter(context, events);
      && (AllIn(ids, Answered(after)) || IsLatest(after, ids))
      && Count(context, events, OwnSettles(ids)) + Done(context, ids) == Done(after, ids)
  {
    if events == [] {
    } else {
      var n := |events| - 1;
      UndisturbedBefore(context, ids, events, n);
      OwnSettlementsAfter(context, ids, events[..n]);
      OwnStep(ContextAfter(context, events[..n]), ids, events[n]);
    }
  }

  // ---------------------------------------------------------------- the opening response

  predicate AllRejected(calls: seq<Call>) {
    forall i :: 0 <= i < |calls| ==> calls[i].rejected
  }

  lemma {:induction false} RejectionsCount(calls: seq<Call>)
    ensures |Rejections(calls)| <= |calls|
    ensures |Rejections(calls)| == |calls| <==> AllRejected(calls)
  {
    if calls == [] {
    } else {
      var n := |calls| - 1;
      RejectionsCount(calls[..n]);
      assert AllRejected(calls) <==> AllRejected(calls[..n]) && calls[n].rejected by {
        assert forall i :: 0 <= i < n ==> calls[..n][i] == calls[i];
      }
    }
  }

  /** The inline answers are exactly the answers to rejected calls. */
  lemma {:induction false} RejectionsAnswer(calls: seq<Call>)
    ensures forall m :: m in Rejections(calls) ==> m.ToolAnswer?
    ensures forall c :: c in calls && c.rejected ==> ToolAnswer(c.id) in Rejections(calls)
    ensures forall m :: m in Rejections(calls) ==> exists c :: c in calls && c.rejected && m.call == c.id
  {
    if calls == [] {
    } else {
      var n := |calls| - 1;
      RejectionsAnswer(calls[..n]);
      assert calls == calls[..n] + [calls[n]];
    }
  }

  lemma {:induction false} DispatchesAskNothing(calls: seq<Call>)
    ensures ModelRequest !in Dispatches(calls)
  {
    if calls == [] {
    } else {
      DispatchesAskNothing(calls[..|calls| - 1]);
    }
  }

  /** The turn that a response with calls opens: its calls are the latest, and beyond what was
      answered before, exactly its inline answers are given. */
  lemma TurnOpens(context: seq<Message>, calls: seq<Call>)
    requires calls != []
    ensures var after := After(context, ModelResponse(calls));
      && IsLatest(after, IdsOf(calls))
      && Answered(after) == Answered(context) + Answered(Rejections(calls))
  {
    var turn, answers := [Assistant(IdsOf(calls))], Rejections(calls);
    RejectionsAnswer(calls);
    LatestKept(context + turn, answers);
    assert (context + turn)[..|context|] == context;
    assert context + (turn + answers) == context + turn + answers;
    AnsweredGrows(context + turn, answers);
    AnsweredGrows(context, turn);
  }

  /** Distinct calls are all answered inline exactly when all are rejected. */
  lemma AnsweredInlineWhen(calls: seq<Call>)
    requires forall i, j :: 0 <= i < j < |calls| ==> calls[i].id != calls[j].id
    ensures AllIn(IdsOf(calls), Answered(Rejections(calls))) <==> AllRejected(calls)
  {
    RejectionsAnswer(calls);
    if AllIn(IdsOf(calls), Answered(Rejections(calls))) {
      forall i | 0 <= i < |calls| ensures calls[i].rejected {
        assert IdsOf(calls)[i] in Answered(Rejections(calls));
        var c :| c in calls && c.rejected && c.id == calls[i].id;
      }
    }
    if AllRejected(calls) {
      forall i | 0 <= i < |calls| ensures IdsOf(calls)[i] in Answered(Rejections(calls)) {
        assert calls[i] in calls;
        assert ToolAnswer(calls[i].id) in Rejections(calls);
      }
    }
  }

  /** The model response itself: it settles at once exactly when every call was rejected inline, that
      is when the batch is done at once. */
  lemma BatchStarts(context: seq<Message>, calls: seq<Call>)
    requires FreshBatch(context, calls)
    ensures var after := After(context, ModelResponse(calls));
      && IsLatest(after, IdsOf(calls))
      && (Settles(context, ModelResponse(calls)) <==> AllIn(IdsOf(calls), Answered(after)))
  {
    var ids, inline := IdsOf(calls), Answered(Rejections(calls));
    TurnOpens(context, calls);
    AnsweredInlineWhen(calls);
    EventSettlesWhen(context, ModelResponse(calls));
    assert AllIn(ids, Answered(context) + inline) <==> AllIn(ids, inline);
  }

  /** Whether the opening response itself settles. */
  function Opening(context: seq<Message>, calls: seq<Call>): nat {
    if Settles(context, ModelResponse(calls)) then 1 else 0
  }

  /** Whatever the order, mix and duplication of inline rejections, results, failures, user turns and
      reports on other calls, and whatever follows once it is done, a fresh batch asks the model
      exactly once, with the event that first answers its last call, and never if it stays open. */
  lemma BatchSettlesOnce(context: seq<Message>, calls: seq<Call>, events: seq<Event>)
    requires FreshBatch(context, calls)
    requires UndisturbedUntilDone(After(context, ModelResponse(calls)), IdsOf(calls), events)
    ensures var start := After(context, ModelResponse(calls));
      Opening(context, calls) + Count(start, events, OwnSettles(IdsOf(calls)))
      == Done(ContextAfter(start, events), IdsOf(calls))
  {
    BatchStarts(context, calls);
    OwnSettlementsAfter(After(context, ModelResponse(calls)), IdsOf(calls), events);
  }

  /** While the batch is the latest turn and failures concern it, what settles is its own report. */
  lemma SettlesOwn(context: seq<Message>, ids: seq<Id>, e: Event)
    requires IsLatest(context, ids) && !e.ModelResponse? && (e.InvocationFailed? ==> e.call in ids)
    ensures IsLatest(After(context, e), ids)
    ensures Settles(context, e) <==> OwnSettles(ids)(context, e)
  {
    TurnKept(context, e);
    EventSettlesWhen(context, e);
    if e.ToolResult? && Completes(context, e) {
      AnswersOne(e.call);
      OneMoreAnswer(Answered(context), ids, e.call);
    }
    if e.UserMessage? {
      AnswersOne(Id(""));
    }
  }

  /** No response, and every failure concerns the batch. */
  ghost predicate OwnFailuresOnly(ids: seq<Id>, events: seq<Event>) {
    forall e :: e in events ==> !e.ModelResponse? && (e.InvocationFailed? ==> e.call in ids)
  }

  /** Reports about this batch only are never stray, so all settlements are its own. */
  lemma {:induction false} OwnReportsOnly(context: seq<Message>, ids: seq<Id>, events: seq<Event>)
    requires IsLatest(context, ids) && OwnFailuresOnly(ids, events)
    ensures IsLatest(ContextAfter(context, events), ids)
    ensures Count(context, events, Settles) == Count(context, events, OwnSettles(ids))
  {
    if events == [] {
    } else {
      var n := |events| - 1;
      OwnReportsOnly(context, ids, events[..n]);
      assert events[n] in events;
      SettlesOwn(ContextAfter(context, events[..n]), ids, events[n]);
    }
  }

  /** When, until the next response, failure reports concern only this batch, the model is asked
      exactly once in that time if the batch completes, and never otherwise; and reports on the batch
      ask nothing afterwards. `n` is where the next response stands, or the end. */
  lemma BatchSettlesExactlyOnce(context: seq<Message>, calls: seq<Call>, events: seq<Event>, n: nat)
    requires FreshBatch(context, calls) && n <= |events|
    requires UndisturbedUntilDone(After(context, ModelResponse(calls)), IdsOf(calls), events)
    requires n < |events| ==> events[n].ModelResponse?
    requires OwnFailuresOnly(IdsOf(calls), events[..n])
    ensures var start := After(context, ModelResponse(calls));
      && Opening(context, calls) + Count(start, events[..n], Settles)
         == Done(ContextAfter(start, events), IdsOf(calls))
      && Count(start, events, OwnSettles(IdsOf(calls))) == Count(start, events[..n], OwnSettles(IdsOf(calls)))
  {
    var start, ids, own := After(context, ModelResponse(calls)), IdsOf(calls), events[..n];
    UndisturbedBefore(start, ids, events, n);
    BatchStarts(context, calls);
    OwnReportsOnly(start, ids, own);
    BatchSettlesOnce(context, calls, own);
    BatchSettlesOnce(context, calls, events);
    if n < |events| {
      assert AllIn(ids, Answered(ContextAfter(start, own)));
      AnsweredKept(start, events, n, ids);
    } else {
      assert own == events;
    }
  }

  /** A done batch stays done. */
  lemma {:induction false} AnsweredKept(context: seq<Message>, events: seq<Event>, n: nat, ids: seq<Id>)
    requires n <= |events| && AllIn(ids, Answered(ContextAfter(context, events[..n])))
    ensures AllIn(ids, Answered(ContextAfter(context, events)))
    decreases |events|
  {
    if n == |events| {
      assert events[..n] == events;
    } else {
      var m := |events| - 1;
      assert events[..m][..n] == events[..n];
      AnsweredKept(context, events[..m], n, ids);
      var before := ContextAfter(context, events[..m]);
      AnsweredGrows(before, React(before, events[m]).added);
    }
  }

  // ---------------------------------------------------------------- two failing runs

  lemma Extends(context: seq<Message>, events: seq<Event>, e: Event)
    ensures ContextAfter(context, events + [e]) == After(ContextAfter(context, events), e)
    ensures Count(context, events + [e], Settles)
         == Count(context, events, Settles) + (if Settles(ContextAfter(context, events), e) then 1 else 0)
  {
    assert (events + [e])[..|events|] == events;
  }

  /** Two user turns with one call each, the second answered. */
  function TwoTurns(a: Id, b: Id): seq<Event> {
    OneTurn(a) + [UserMessage] + [ModelResponse([Call(b, false)])] + [ToolResult(b)]
  }

  /** A user turn and the model's one call. */
  function OneTurn(a: Id): seq<Event> {
    [] + [UserMessage] + [ModelResponse([Call(a, false)])]
  }

  lemma OneCallTurn(context: seq<Message>, a: Id)
    ensures After(context, ModelResponse([Call(a, false)])) == context + [Assistant([a])]
    ensures !Settles(context, ModelResponse([Call(a, false)]))
  {
    var calls := [Call(a, false)];
    assert calls[..0] == [];
    assert IdsOf(calls) == [a];
    assert Rejections(calls) == [];
    EventSettlesWhen(context, ModelResponse(calls));
    assert !calls[0].rejected;
  }

  lemma AfterOneTurn(a: Id)
    ensures ContextAfter([], OneTurn(a)) == [UserText, Assistant([a])] && Count([], OneTurn(a), Settles) == 0
  {
    Extends([], [], UserMessage);
    Extends([], [] + [UserMessage], ModelResponse([Call(a, false)]));
    OneCallTurn([UserText], a);
    assert ContextAfter([], []) == [] && [] + [UserText] == [UserText];
  }

  /** The context when both calls are open. */
  function OpenTurns(a: Id, b: Id): seq<Message> {
    [UserText, Assistant([a]), UserText, Assistant([b])]
  }

  lemma OpenTurnsSettle(a: Id, b: Id)
    requires a != b
    ensures Settles(OpenTurns(a, b), ToolResult(b)) && After(OpenTurns(a, b), ToolResult(b))
      == OpenTurns(a, b) + [ToolAnswer(b)]
    ensures LatestCalls(OpenTurns(a, b) + [ToolAnswer(b)]) == Some([b])
    ensures Answered(OpenTurns(a, b) + [ToolAnswer(b)]) == {b}
  {
    var open := OpenTurns(a, b);
    assert Answered(open) == {};
    TurnKept(open, ToolResult(b));
    AnswersOne(b);
    EventSettlesWhen(open, ToolResult(b));
    assert Completes(open, ToolResult(b));
  }

  lemma AfterTwoTurns(a: Id, b: Id)
    requires a != b
    ensures ContextAfter([], TwoTurns(a, b)) == OpenTurns(a, b) + [ToolAnswer(b)]
    ensures Count([], TwoTurns(a, b), Settles) == 1
  {
    var first := [UserText, Assistant([a])];
    AfterOneTurn(a);
    Extends([], OneTurn(a), UserMessage);
    Extends([], OneTurn(a) + [UserMessage], ModelResponse([Call(b, false)]));
    Extends([], OneTurn(a) + [UserMessage] + [ModelResponse([Call(b, false)])], ToolResult(b));
    OneCallTurn(first + [UserText], b);
    assert first + [UserText] + [Assistant([b])] == OpenTurns(a, b);
    OpenTurnsSettle(a, b);
  }

  /** The promise that a settled batch asks the model once is broken by a late failure of an older
      call: after the second turn settled, the failure of the first turn's call settles again. */
  lemma LateFailureSettlesAgain(a: Id, b: Id)
    requires a != b
    ensures Count([], TwoTurns(a, b) + [InvocationFailed(a, true)], Settles) == 2
  {
    AfterTwoTurns(a, b);
    OpenTurnsSettle(a, b);
    Extends([], TwoTurns(a, b), InvocationFailed(a, true));
    var context := ContextAfter([], TwoTurns(a, b));
    EventSettlesWhen(context, InvocationFailed(a, true));
    assert StrayFailure(context, InvocationFailed(a, true));
  }

  /** And by a late result: once the model has answered in plain text, the result of the first turn's
      call asks it again. */
  lemma LateResultSettlesAgain(a: Id, b: Id)
    requires a != b
    ensures Count([], TwoTurns(a, b) + [ModelResponse([])] + [ToolResult(a)], Settles) == 2
  {
    AfterTwoTurns(a, b);
    OpenTurnsSettle(a, b);
    Extends([], TwoTurns(a, b), ModelResponse([]));
    Extends([], TwoTurns(a, b) + [ModelResponse([])], ToolResult(a));
    var settled := ContextAfter([], TwoTurns(a, b));
    EventSettlesWhen(settled, ModelResponse([]));
    var context := settled + [Assistant([])];
    AnsweredGrows(settled, [Assistant([])]);
    assert Answered(context) == {b};
    EventSettlesWhen(context, ToolResult(a));
    assert OrphanResult(context, ToolResult(a));
  }
}
