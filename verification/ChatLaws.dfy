/** What happens to each call of a turn over a whole run: it is dispatched once, or rejected once. */
module ChatLaws {
  import opened Ordered
  import opened ChatContext

  /** Everything published in a run of events. */
  function Publications(context: seq<Message>, events: seq<Event>): seq<Publication> {
    if events == [] then []
    else
      var n := |events| - 1;
      Publications(context, events[..n]) + React(ContextAfter(context, events[..n]), events[n]).published
  }

  /** How often `p` is published. */
  function Times(p: Publication, published: seq<Publication>): nat {
    multiset(published)[p]
  }

  /** No later response takes the identifier for another call. */
  ghost predicate NotReused(id: Id, events: seq<Event>) {
    forall e :: e in events && e.ModelResponse? ==> NotAmong(id, e.calls)
  }

  predicate NotAmong(id: Id, calls: seq<Call>) {
    forall i :: 0 <= i < |calls| ==> calls[i].id != id
  }

  predicate Fails(e: Event, id: Id) {
    e == InvocationFailed(id, true)
  }

  predicate Reports(e: Event, id: Id) {
    Fails(e, id) || e == ToolResult(id)
  }

  ghost predicate Reported(events: seq<Event>, id: Id) {
    exists i :: 0 <= i < |events| && Reports(events[i], id)
  }

  /** The first report on the call is that it failed. */
  ghost predicate FailsFirst(events: seq<Event>, id: Id) {
    exists i :: 0 <= i < |events| && Fails(events[i], id) && !Reported(events[..i], id)
  }

  // ---------------------------------------------------------------- the opening response

  lemma TimesAdd(p: Publication, a: seq<Publication>, b: seq<Publication>)
    ensures Times(p, a + b) == Times(p, a) + Times(p, b)
  {
  }

  lemma TimesOfOne(p: Publication, q: Publication)
    ensures Times(p, [q]) == (if p == q then 1 else 0) && Times(p, []) == 0
  {
  }

  /** A call among distinct ones is announced once, as what it is. */
  lemma {:induction false} AnnouncedOnce(calls: seq<Call>, id: Id)
    requires forall i, j :: 0 <= i < j < |calls| ==> calls[i].id != calls[j].id
    ensures Times(ToolCall(id), Dispatches(calls)) == (if Call(id, false) in calls then 1 else 0)
    ensures Times(ToolCallRejected(id), Dispatches(calls)) == (if Call(id, true) in calls then 1 else 0)
  {
    if calls == [] {
    } else {
      var n := |calls| - 1;
      var last := calls[n];
      AnnouncedOnce(calls[..n], id);
      assert calls == calls[..n] + [last];
      var said := if last.rejected then ToolCallRejected(last.id) else ToolCall(last.id);
      TimesAdd(ToolCall(id), Dispatches(calls[..n]), [said]);
      TimesAdd(ToolCallRejected(id), Dispatches(calls[..n]), [said]);
      TimesOfOne(ToolCall(id), said);
      TimesOfOne(ToolCallRejected(id), said);
    }
  }

  lemma {:induction false} NeverAnnounced(calls: seq<Call>, id: Id)
    requires NotAmong(id, calls)
    ensures Times(ToolCall(id), Dispatches(calls)) == 0 == Times(ToolCallRejected(id), Dispatches(calls))
    ensures ToolAnswer(id) !in Rejections(calls)
  {
    if calls == [] {
    } else {
      var n := |calls| - 1;
      NeverAnnounced(calls[..n], id);
      var said := if calls[n].rejected then ToolCallRejected(calls[n].id) else ToolCall(calls[n].id);
      TimesAdd(ToolCall(id), Dispatches(calls[..n]), [said]);
      TimesAdd(ToolCallRejected(id), Dispatches(calls[..n]), [said]);
    }
  }

  /** What a response publishes beyond its announcements names no call. */
  lemma ResponseTimes(context: seq<Message>, calls: seq<Call>, p: Publication)
    requires p.ToolCall? || p.ToolCallRejected?
    ensures Times(p, React(context, ModelResponse(calls)).published) == Times(p, Dispatches(calls))
  {
    if calls != [] {
      var asked := if |Rejections(calls)| == |calls| then [ModelRequest] else [];
      TimesAdd(p, Dispatches(calls), asked);
      TimesOfOne(p, ModelRequest);
    }
  }

  // ---------------------------------------------------------------- the events after it

  /** What one event publishes about a call: nothing, unless it is the first report and a failure. */
  lemma EventTimes(context: seq<Message>, e: Event, id: Id)
    requires e.ModelResponse? ==> NotAmong(id, e.calls)
    ensures Times(ToolCall(id), React(context, e).published) == 0
    ensures Times(ToolCallRejected(id), React(context, e).published)
         == if Fails(e, id) && id !in Answered(context) then 1 else 0
  {
    match e
    case ModelResponse(calls) =>
      ResponseTimes(context, calls, ToolCall(id));
      ResponseTimes(context, calls, ToolCallRejected(id));
      NeverAnnounced(calls, id);
    case InvocationFailed(call, stopsCall) =>
      if stopsCall && call !in Answered(context) {
        var wanted := match LatestCalls(context) case Some(ids) => ids case None => [];
        TimesAdd(ToolCall(id), [ToolCallRejected(call)], Settle(context, call, wanted));
        TimesAdd(ToolCallRejected(id), [ToolCallRejected(call)], Settle(context, call, wanted));
      }
    case _ =>
  }

  /** A call is answered by its first report. */
  lemma EventAnswers(context: seq<Message>, e: Event, id: Id)
    requires e.ModelResponse? ==> NotAmong(id, e.calls)
    ensures id in Answered(After(context, e)) <==> id in Answered(context) || Reports(e, id)
  {
    AnsweredGrows(context, React(context, e).added);
    AnsweredIsListed(React(context, e).added, id);
    if e.ModelResponse? {
      NeverAnnounced(e.calls, id);
    }
  }

  lemma ReportedGrows(events: seq<Event>, id: Id)
    requires events != []
    ensures var n := |events| - 1;
      Reported(events, id) <==> Reported(events[..n], id) || Reports(events[n], id)
  {
    var n := |events| - 1;
    if Reported(events, id) {
      var i :| 0 <= i < |events| && Reports(events[i], id);
      assert i < n ==> events[..n][i] == events[i];
    }
    if Reported(events[..n], id) {
      var i :| 0 <= i < n && Reports(events[..n][i], id);
      assert Reports(events[i], id);
    }
  }

  lemma FailsFirstGrows(events: seq<Event>, id: Id)
    requires events != []
    ensures var n := |events| - 1;
      FailsFirst(events, id) <==> FailsFirst(events[..n], id) || (Fails(events[n], id) && !Reported(events[..n], id))
    ensures var n := |events| - 1;
      FailsFirst(events[..n], id) ==> Reported(events[..n], id)
  {
    var n := |events| - 1;
    if i :| 0 <= i < |events| && Fails(events[i], id) && !Reported(events[..i], id) {
      if i < n {
        assert events[..n][..i] == events[..i] && Fails(events[..n][i], id);
      }
    }
    if i :| 0 <= i < n && Fails(events[..n][i], id) && !Reported(events[..n][..i], id) {
      assert events[..n][..i] == events[..i] && Fails(events[i], id);
      assert Reports(events[..n][i], id);
    }
  }

  lemma {:induction false} AnsweredWhenReported(context: seq<Message>, events: seq<Event>, id: Id)
    requires NotReused(id, events)
    ensures id in Answered(ContextAfter(context, events)) <==> id in Answered(context) || Reported(events, id)
  {
    if events == [] {
    } else {
      var n := |events| - 1;
      assert events[n] in events;
      AnsweredWhenReported(context, events[..n], id);
      EventAnswers(ContextAfter(context, events[..n]), events[n], id);
      ReportedGrows(events, id);
    }
  }

  /** After its turn, a call is never dispatched again, and it is announced as rejected exactly when
      it is open and its first report is a failure. */
  lemma {:induction false} LaterTimes(context: seq<Message>, events: seq<Event>, id: Id)
    requires NotReused(id, events)
    ensures Times(ToolCall(id), Publications(context, events)) == 0
    ensures Times(ToolCallRejected(id), Publications(context, events))
         == if id !in Answered(context) && FailsFirst(events, id) then 1 else 0
  {
    if events == [] {
    } else {
      var n := |events| - 1;
      var before := ContextAfter(context, events[..n]);
      var said := React(before, events[n]).published;
      assert events[n] in events;
      LaterTimes(context, events[..n], id);
      AnsweredWhenReported(context, events[..n], id);
      FailsFirstGrows(events, id);
      EventTimes(before, events[n], id);
      TimesAdd(ToolCall(id), Publications(context, events[..n]), said);
      TimesAdd(ToolCallRejected(id), Publications(context, events[..n]), said);
    }
  }

  // ---------------------------------------------------------------- the law

  lemma OpeningAnswers(context: seq<Message>, calls: seq<Call>, c: Call)
    requires FreshBatch(context, calls) && c in calls
    ensures c.id in Answered(After(context, ModelResponse(calls))) <==> c.rejected
  {
    TurnOpens(context, calls);
    RejectionsAnswer(calls);
    AnsweredIsListed(Rejections(calls), c.id);
    if ToolAnswer(c.id) in Rejections(calls) {
      var d :| d in calls && d.rejected && d.id == c.id;
      assert d == c;
    }
  }

  /** Over any run, each call of a fresh turn is dispatched exactly once if it is accepted and never
      if it is rejected; and it is announced as rejected exactly once if it is rejected or if the first
      report on it is a failure, and never otherwise. */
  lemma EachCallOnce(context: seq<Message>, calls: seq<Call>, events: seq<Event>, c: Call)
    requires FreshBatch(context, calls) && c in calls && NotReused(c.id, events)
    ensures var said := React(context, ModelResponse(calls)).published
                        + Publications(After(context, ModelResponse(calls)), events);
      && Times(ToolCall(c.id), said) == (if c.rejected then 0 else 1)
      && Times(ToolCallRejected(c.id), said) == (if c.rejected || FailsFirst(events, c.id) then 1 else 0)
  {
    var start, opening := After(context, ModelResponse(calls)), React(context, ModelResponse(calls)).published;
    AnnouncedOnce(calls, c.id);
    assert Call(c.id, c.rejected) in calls;
    assert Call(c.id, !c.rejected) !in calls;
    ResponseTimes(context, calls, ToolCall(c.id));
    ResponseTimes(context, calls, ToolCallRejected(c.id));
    OpeningAnswers(context, calls, c);
    LaterTimes(start, events, c.id);
    TimesAdd(ToolCall(c.id), opening, Publications(start, events));
    TimesAdd(ToolCallRejected(c.id), opening, Publications(start, events));
  }
}
