/** The deterministic handler-order compiler: declaration checks, a priority-driven topological
    sort, and extraction of a readable cycle when the sort gets stuck. */
module HandlerOrder {
  import opened Sorting
  import opened Ordered
  import opened Digraph
  import opened HandlerDiagnostics
  import opened HandlerReport

  datatype Outcome = Compiled(handlers: seq<Id>) | Rejected(diagnostics: seq<Diagnostic>)

  // ---------------------------------------------------------------- specification

  /** `a` must run before `b`: declared by `a` as `before`, or by `b` as `after`. */
  ghost predicate Constraint(specs: seq<OrderingSpec>, a: Id, b: Id) {
    exists s :: s in specs && Declares(s, a, b)
  }

  predicate Declares(s: OrderingSpec, a: Id, b: Id) {
    (s.handler == a && b in s.before) || (s.handler == b && a in s.after)
  }

  ghost function ConstraintGraph(specs: seq<OrderingSpec>): Graph {
    map a | a in Known(specs) :: set b | b in Known(specs) && Constraint(specs, a, b)
  }

  datatype ReadyKey = ReadyKey(stage: nat, priority: int, plugin: Id, handler: Id)

  function KeyOf(s: OrderingSpec): ReadyKey {
    ReadyKey(s.stage, s.priority, s.plugin, s.handler)
  }

  /** Stage ascending, priority descending, plugin ascending, handler ascending. */
  predicate KeyLess(a: ReadyKey, b: ReadyKey) {
    || a.stage < b.stage
    || (a.stage == b.stage
        && (|| a.priority > b.priority
            || (a.priority == b.priority
                && (Less(a.plugin, b.plugin)
                    || (a.plugin == b.plugin && Less(a.handler, b.handler))))))
  }

  /** Not placed yet, with every predecessor placed. */
  ghost predicate Ready(g: Graph, placed: seq<Id>, h: Id) {
    h in g && h !in placed && forall a :: a in g && Edge(g, a, h) ==> a in placed
  }

  /** Position `k` holds the least-keyed handler that is ready after the first `k`. */
  ghost predicate GreedyAt(specs: seq<OrderingSpec>, hs: seq<Id>, k: nat)
    requires k < |hs|
  {
    var g := ConstraintGraph(specs);
    && Ready(g, hs[..k], hs[k])
    && forall s, t | s in specs && t in specs && s.handler == hs[k] && t.handler != hs[k] ::
         Ready(g, hs[..k], t.handler) ==> KeyLess(KeyOf(s), KeyOf(t))
  }

  /** The permutation of the handlers that respects every constraint and always takes the
      least-keyed ready handler next. */
  ghost predicate IsGreedyOrder(specs: seq<OrderingSpec>, hs: seq<Id>) {
    && Distinct(hs)
    && Elements(hs) == Known(specs)
    && forall k :: 0 <= k < |hs| ==> GreedyAt(specs, hs, k)
  }

  /** A genuine cycle among the handlers that stay unresolved: the first the ordered search meets. */
  ghost predicate ReportsCycle(g: Graph, path: seq<Id>) {
    && IsCycle(g, path)
    && exists placed, unresolved {:trigger Stuck(g, placed, unresolved)} ::
         Stuck(g, placed, unresolved) && path == CyclePath(g, unresolved) && Within(path, unresolved)
  }

  /** What compiling a list of specifications must deliver. */
  ghost predicate CompilesTo(specs: seq<OrderingSpec>, r: Outcome) {
    match r
    case Compiled(hs) =>
      WellDeclared(specs) && IsGreedyOrder(specs, hs) && |hs| == |specs|
    case Rejected(ds) =>
      if WellDeclared(specs) then
        |ds| == 1 && ds[0].OrderingCycle? && ReportsCycle(ConstraintGraph(specs), ds[0].path)
      else
        ds == Report(specs)
  }

  // ---------------------------------------------------------------- key order

  lemma KeyOrderIsTotal()
    ensures forall a, b :: KeyLess(a, b) || a == b || KeyLess(b, a)
    ensures forall a, b :: !(KeyLess(a, b) && KeyLess(b, a))
    ensures forall a, b, c :: KeyLess(a, b) && KeyLess(b, c) ==> KeyLess(a, c)
  {
    LessIsTotal();
  }

  /** What popping the first key of the ordered ready set returns. */
  function LeastKey(s: set<ReadyKey>): (m: ReadyKey)
    requires s != {}
    ensures m in s
    ensures forall x :: x in s ==> x == m || KeyLess(m, x)
  {
    KeyOrderIsTotal();
    LeastExists(s, KeyLess);
    var m :| m in s && forall x :: x in s ==> x == m || KeyLess(m, x);
    m
  }

  // ---------------------------------------------------------------- constraint graph

  lemma OneMoreSource(g: Graph, g': Graph, source: Id, target: Id, b: Id)
    requires source in g && target !in g[source] && g' == g[source := g[source] + {target}]
    ensures Sources(g', g'.Keys, b) == Sources(g, g.Keys, b) + (if b == target then {source} else {})
    ensures b == target ==> source !in Sources(g, g.Keys, b)
  {
  }

  /** Adds one edge to the successor sets, counting it only when it is new. */
  method AddEdge(source: Id, target: Id, outgoing: Graph, incoming: map<Id, nat>)
    returns (outgoing': Graph, incoming': map<Id, nat>)
    requires Counted(outgoing, incoming)
    requires source in outgoing && target in outgoing
    ensures OneMore(outgoing, outgoing', source, target)
    ensures Counted(outgoing', incoming')
  {
    outgoing', incoming' := outgoing, incoming;
    if target !in outgoing[source] {
      outgoing' := outgoing[source := outgoing[source] + {target}];
      incoming' := incoming[target := incoming[target] + 1];
      forall b | b in incoming' ensures incoming'[b] == |Sources(outgoing', outgoing'.Keys, b)| {
        OneMoreSource(outgoing, outgoing', source, target, b);
      }
    }
  }

  /** What the first `i` entries of `before` and the first `j` entries of `after` declare. */
  ghost predicate DeclaresUpTo(s: OrderingSpec, i: nat, j: nat, a: Id, b: Id)
    requires i <= |s.before| && j <= |s.after|
  {
    (s.handler == a && b in s.before[..i]) || (s.handler == b && a in s.after[..j])
  }

  ghost predicate Grown(g: Graph, g': Graph, s: OrderingSpec, i: nat, j: nat)
    requires i <= |s.before| && j <= |s.after|
  {
    && g'.Keys == g.Keys
    && forall a, b :: a in g ==> (Edge(g', a, b) <==> Edge(g, a, b) || DeclaresUpTo(s, i, j, a, b))
  }

  /** `g'` is `g` with one more edge. */
  ghost predicate OneMore(g: Graph, g': Graph, source: Id, target: Id) {
    && g'.Keys == g.Keys
    && forall a, b :: a in g ==> (Edge(g', a, b) <==> Edge(g, a, b) || (a == source && b == target))
  }

  lemma GrowBefore(g: Graph, g1: Graph, g2: Graph, s: OrderingSpec, i: nat)
    requires i < |s.before| && Grown(g, g1, s, i, 0) && OneMore(g1, g2, s.handler, s.before[i])
    ensures Grown(g, g2, s, i + 1, 0)
  {
    forall a, b | a in g
      ensures Edge(g2, a, b) <==> Edge(g, a, b) || DeclaresUpTo(s, i + 1, 0, a, b)
    {
      assert Edge(g1, a, b) <==> Edge(g, a, b) || DeclaresUpTo(s, i, 0, a, b);
    }
  }

  lemma GrowAfter(g: Graph, g1: Graph, g2: Graph, s: OrderingSpec, i: nat, j: nat)
    requires i <= |s.before| && j < |s.after|
    requires Grown(g, g1, s, i, j) && OneMore(g1, g2, s.after[j], s.handler)
    ensures Grown(g, g2, s, i, j + 1)
  {
    forall a, b | a in g
      ensures Edge(g2, a, b) <==> Edge(g, a, b) || DeclaresUpTo(s, i, j + 1, a, b)
    {
      assert Edge(g1, a, b) <==> Edge(g, a, b) || DeclaresUpTo(s, i, j, a, b);
    }
  }

  method AddSpecification(s: OrderingSpec, outgoing: Graph, incoming: map<Id, nat>)
    returns (outgoing': Graph, incoming': map<Id, nat>)
    requires Counted(outgoing, incoming)
    requires s.handler in outgoing && forall x :: x in s.before || x in s.after ==> x in outgoing
    ensures Grown(outgoing, outgoing', s, |s.before|, |s.after|)
    ensures Counted(outgoing', incoming')
  {
    outgoing', incoming' := outgoing, incoming;
    for i := 0 to |s.before|
      invariant Grown(outgoing, outgoing', s, i, 0)
      invariant Counted(outgoing', incoming')
    {
      ghost var g1 := outgoing';
      outgoing', incoming' := AddEdge(s.handler, s.before[i], outgoing', incoming');
      GrowBefore(outgoing, g1, outgoing', s, i);
    }
    for j := 0 to |s.after|
      invariant Grown(outgoing, outgoing', s, |s.before|, j)
      invariant Counted(outgoing', incoming')
    {
      ghost var g1 := outgoing';
      outgoing', incoming' := AddEdge(s.after[j], s.handler, outgoing', incoming');
      GrowAfter(outgoing, g1, outgoing', s, |s.before|, j);
    }
  }

  /** The graph holds exactly the constraints declared by the first `i` specifications. */
  ghost predicate Built(specs: seq<OrderingSpec>, i: nat, g: Graph)
    requires i <= |specs|
  {
    && g.Keys == Known(specs)
    && forall a, b :: a in g ==> (Edge(g, a, b) <==> Constraint(specs[..i], a, b))
  }

  lemma BuildStep(specs: seq<OrderingSpec>, i: nat, g: Graph, g': Graph)
    requires i < |specs| && Built(specs, i, g)
    requires Grown(g, g', specs[i], |specs[i].before|, |specs[i].after|)
    ensures Built(specs, i + 1, g')
  {
    var s := specs[i];
    assert s.before[..|s.before|] == s.before && s.after[..|s.after|] == s.after;
    forall a, b | a in g'
      ensures Edge(g', a, b) <==> Constraint(specs[..i + 1], a, b)
    {
      assert Edge(g', a, b) <==> Edge(g, a, b) || Declares(s, a, b) by {
        assert DeclaresUpTo(s, |s.before|, |s.after|, a, b) <==> Declares(s, a, b);
      }
      ConstraintStep(specs, i, a, b);
    }
  }

  lemma ConstraintStep(specs: seq<OrderingSpec>, i: nat, a: Id, b: Id)
    requires i < |specs|
    ensures Constraint(specs[..i + 1], a, b) <==> Constraint(specs[..i], a, b) || Declares(specs[i], a, b)
  {
    assert specs[..i + 1] == specs[..i] + [specs[i]];
    if s :| s in specs[..i] && Declares(s, a, b) { assert s in specs[..i + 1]; }
    if Declares(specs[i], a, b) { assert specs[i] in specs[..i + 1]; }
  }

  /** Builds the constraint graph and its indegrees from well-declared specifications. */
  method BuildGraph(specs: seq<OrderingSpec>) returns (outgoing: Graph, incoming: map<Id, nat>)
    requires WellDeclared(specs)
    ensures outgoing == ConstraintGraph(specs)
    ensures Counted(outgoing, incoming)
  {
    var known := Known(specs);
    outgoing := map h | h in known :: {};
    incoming := map h | h in known :: 0;
    assert Counted(outgoing, incoming) by {
      forall b | b in known ensures Sources(outgoing, known, b) == {} {}
    }
    for i := 0 to |specs|
      invariant Built(specs, i, outgoing)
      invariant Counted(outgoing, incoming)
    {
      assert specs[i] in specs && specs[i].handler in known;
      ghost var g := outgoing;
      outgoing, incoming := AddSpecification(specs[i], outgoing, incoming);
      BuildStep(specs, i, g, outgoing);
    }
    assert specs[..|specs|] == specs;
    EdgesAreConstraints(specs, outgoing);
  }

  /** In a well-declared list, constraints stay among the known handlers. */
  lemma EdgesAreConstraints(specs: seq<OrderingSpec>, outgoing: Graph)
    requires WellDeclared(specs) && outgoing.Keys == Known(specs)
    requires forall a, b :: a in Known(specs) ==> (Edge(outgoing, a, b) <==> Constraint(specs, a, b))
    ensures outgoing == ConstraintGraph(specs)
  {
    var g := ConstraintGraph(specs);
    forall a | a in Known(specs) ensures outgoing[a] == g[a] {
      forall b ensures b in outgoing[a] <==> b in g[a] {
        assert b in outgoing[a] <==> Edge(outgoing, a, b);
        if Constraint(specs, a, b) {
          var s :| s in specs && Declares(s, a, b);
          var i :| 0 <= i < |specs| && specs[i] == s;
          assert s.handler in Known(specs);
        }
      }
    }
  }

  // ---------------------------------------------------------------- the ready loop

  ghost predicate IsIndex(specs: seq<OrderingSpec>, byId: map<Id, OrderingSpec>) {
    && byId.Keys == Known(specs)
    && (forall s :: s in specs ==> s.handler in byId && byId[s.handler] == s)
    && forall h :: h in byId ==> byId[h] in specs && byId[h].handler == h
  }

  /** The ready set holds the keys of exactly the unplaced handlers with indegree zero. */
  ghost predicate ReadySet(byId: map<Id, OrderingSpec>, placed: seq<Id>, incoming: map<Id, nat>,
                           ready: set<ReadyKey>) {
    && (forall k :: k in ready ==>
          k.handler in byId && KeyOf(byId[k.handler]) == k
          && k.handler !in placed && k.handler in incoming && incoming[k.handler] == 0)
    && forall h :: h in byId && h in incoming && h !in placed && incoming[h] == 0 ==> KeyOf(byId[h]) in ready
  }

  method IndexById(specs: seq<OrderingSpec>) returns (byId: map<Id, OrderingSpec>)
    requires UniqueHandlers(specs)
    ensures IsIndex(specs, byId)
  {
    byId := map[];
    for i := 0 to |specs|
      invariant forall h :: h in byId <==> exists k :: 0 <= k < i && specs[k].handler == h
      invariant forall k :: 0 <= k < i ==> specs[k].handler in byId && byId[specs[k].handler] == specs[k]
    {
      byId := byId[specs[i].handler := specs[i]];
    }
  }

  /** Every target lost one predecessor; those left with none became ready. */
  ghost predicate Released(targets: set<Id>, incoming: map<Id, nat>, ready: set<ReadyKey>,
                           byId: map<Id, OrderingSpec>, incoming': map<Id, nat>, ready': set<ReadyKey>) {
    && targets <= byId.Keys
    && incoming'.Keys == incoming.Keys
    && (forall b :: b in incoming ==> incoming'[b] + (if b in targets then 1 else 0) == incoming[b])
    && (forall k :: k in ready' <==>
          k in ready || exists t :: t in targets && t in incoming' && incoming'[t] == 0 && k == KeyOf(byId[t]))
  }

  ghost predicate Releasable(targets: set<Id>, incoming: map<Id, nat>, byId: map<Id, OrderingSpec>) {
    forall t :: t in targets ==> t in incoming && t in byId && incoming[t] > 0
  }

  /** The key of a listed target whose last predecessor this was. */
  ghost predicate Frees(done: seq<Id>, incoming: map<Id, nat>, byId: map<Id, OrderingSpec>, k: ReadyKey) {
    exists t :: t in done && t in incoming && t in byId && incoming[t] == 1 && k == KeyOf(byId[t])
  }

  /** The listed targets are released. */
  ghost predicate ReleasedUpTo(done: seq<Id>, incoming: map<Id, nat>, ready: set<ReadyKey>,
                               byId: map<Id, OrderingSpec>, incoming': map<Id, nat>, ready': set<ReadyKey>) {
    && incoming'.Keys == incoming.Keys
    && (forall b :: b in incoming ==> incoming'[b] + (if b in done then 1 else 0) == incoming[b])
    && forall k :: k in ready' <==> k in ready || Frees(done, incoming, byId, k)
  }

  lemma ReleaseNext(done: seq<Id>, incoming: map<Id, nat>, ready: set<ReadyKey>, byId: map<Id, OrderingSpec>,
                    incoming': map<Id, nat>, ready': set<ReadyKey>, t: Id)
    requires ReleasedUpTo(done, incoming, ready, byId, incoming', ready')
    requires t !in done && t in incoming && t in byId && incoming[t] > 0
    ensures incoming'[t] > 0
    ensures ReleasedUpTo(done + [t], incoming, ready, byId, incoming'[t := incoming'[t] - 1],
                         if incoming'[t] == 1 then ready' + {KeyOf(byId[t])} else ready')
  {
    forall k ensures Frees(done + [t], incoming, byId, k) <==>
        Frees(done, incoming, byId, k) || (incoming[t] == 1 && k == KeyOf(byId[t]))
    {
      if incoming[t] == 1 && k == KeyOf(byId[t]) {
        assert t in done + [t];
      }
    }
  }

  lemma ReleasedAll(targets: set<Id>, order: seq<Id>, incoming: map<Id, nat>, ready: set<ReadyKey>,
                    byId: map<Id, OrderingSpec>, incoming': map<Id, nat>, ready': set<ReadyKey>)
    requires Releasable(targets, incoming, byId) && forall x :: x in order <==> x in targets
    requires ReleasedUpTo(order, incoming, ready, byId, incoming', ready')
    ensures Released(targets, incoming, ready, byId, incoming', ready')
  {
    forall k ensures Frees(order, incoming, byId, k) <==>
        exists t :: t in targets && t in incoming' && incoming'[t] == 0 && k == KeyOf(byId[t])
    {
    }
  }

  /** Decrements the indegree of every target and makes ready those that reach zero. */
  method Release(targets: set<Id>, incoming: map<Id, nat>, ready: set<ReadyKey>,
                 byId: map<Id, OrderingSpec>)
    returns (incoming': map<Id, nat>, ready': set<ReadyKey>)
    requires Releasable(targets, incoming, byId)
    ensures Released(targets, incoming, ready, byId, incoming', ready')
  {
    incoming', ready' := incoming, ready;
    var order := Ascending(targets);
    for i := 0 to |order|
      invariant ReleasedUpTo(order[..i], incoming, ready, byId, incoming', ready')
    {
      var t := order[i];
      NextIsNew(order, i);
      assert t in order;
      ReleaseNext(order[..i], incoming, ready, byId, incoming', ready', t);
      incoming' := incoming'[t := incoming'[t] - 1];
      if incoming'[t] == 0 {
        ready' := ready' + {KeyOf(byId[t])};
      }
    }
    assert order[..|order|] == order;
    ReleasedAll(targets, order, incoming, ready, byId, incoming', ready');
  }

  lemma ZeroMeansReady(g: Graph, placed: seq<Id>, incoming: map<Id, nat>, h: Id)
    requires Remaining(g, placed, incoming) && h in g && h !in placed
    ensures incoming[h] == 0 <==> Ready(g, placed, h)
  {
    SourcesPositive(g, g.Keys - Elements(placed), h);
  }

  lemma PopIsGreedy(specs: seq<OrderingSpec>, byId: map<Id, OrderingSpec>, placed: seq<Id>,
                    incoming: map<Id, nat>, ready: set<ReadyKey>, next: ReadyKey)
    requires IsIndex(specs, byId) && Remaining(ConstraintGraph(specs), placed, incoming)
    requires ReadySet(byId, placed, incoming, ready)
    requires next in ready && forall k :: k in ready ==> k == next || KeyLess(next, k)
    ensures GreedyAt(specs, placed + [next.handler], |placed|)
  {
    var g := ConstraintGraph(specs);
    var hs := placed + [next.handler];
    assert hs[..|placed|] == placed;
    ZeroMeansReady(g, placed, incoming, next.handler);
    forall s, t | s in specs && t in specs && s.handler == next.handler && t.handler != next.handler
                  && Ready(g, placed, t.handler)
      ensures KeyLess(KeyOf(s), KeyOf(t))
    {
      ZeroMeansReady(g, placed, incoming, t.handler);
      assert KeyOf(byId[t.handler]) in ready;
    }
  }

  lemma ReadySetAfter(g: Graph, byId: map<Id, OrderingSpec>, placed: seq<Id>,
                      incoming: map<Id, nat>, ready: set<ReadyKey>, next: ReadyKey,
                      incoming': map<Id, nat>, ready': set<ReadyKey>)
    requires ReadySet(byId, placed, incoming, ready) && PlacedAreFree(g, placed, incoming)
    requires byId.Keys == g.Keys == incoming.Keys == incoming'.Keys && next in ready
    requires Releasable(g[next.handler], incoming, byId)
    requires Released(g[next.handler], incoming, ready - {next}, byId, incoming', ready')
    requires forall h :: h in byId ==> byId[h].handler == h
    ensures ReadySet(byId, placed + [next.handler], incoming', ready')
    ensures PlacedAreFree(g, placed + [next.handler], incoming')
  {
    var placed' := placed + [next.handler];
    forall k | k in ready'
      ensures k.handler in byId && KeyOf(byId[k.handler]) == k
      ensures k.handler !in placed' && incoming'[k.handler] == 0
    {
      if k in ready - {next} {
        assert k.handler != next.handler;
      } else {
        var t :| t in g[next.handler] && incoming'[t] == 0 && k == KeyOf(byId[t]);
        assert k.handler == t && incoming[t] > 0;
      }
    }
    forall h | h in byId && h !in placed' && incoming'[h] == 0
      ensures KeyOf(byId[h]) in ready'
    {
      if h !in g[next.handler] {
        assert incoming[h] == 0;
        assert KeyOf(byId[h]) in ready;
        assert KeyOf(byId[h]).handler == h != next.handler;
      }
    }
  }

  ghost predicate GreedyPrefix(specs: seq<OrderingSpec>, hs: seq<Id>) {
    && Distinct(hs)
    && Elements(hs) <= Known(specs)
    && forall k :: 0 <= k < |hs| ==> GreedyAt(specs, hs, k)
  }

  lemma GreedyExtends(specs: seq<OrderingSpec>, hs: seq<Id>, h: Id)
    requires GreedyPrefix(specs, hs) && h in Known(specs)
    requires GreedyAt(specs, hs + [h], |hs|)
    ensures GreedyPrefix(specs, hs + [h])
    ensures Elements(hs + [h]) == Elements(hs) + {h}
  {
    var hs' := hs + [h];
    assert h !in hs by {
      assert hs'[..|hs|] == hs;
    }
    forall k | 0 <= k < |hs'| ensures GreedyAt(specs, hs', k) {
      if k < |hs| {
        assert GreedyAt(specs, hs, k);
        assert hs'[..k] == hs[..k];
      }
    }
  }

  /** What the ready loop keeps. */
  ghost predicate LoopState(specs: seq<OrderingSpec>, byId: map<Id, OrderingSpec>, handlers: seq<Id>,
                            incoming: map<Id, nat>, ready: set<ReadyKey>) {
    var g := ConstraintGraph(specs);
    && IsIndex(specs, byId)
    && GreedyPrefix(specs, handlers)
    && Remaining(g, handlers, incoming)
    && PlacedAreFree(g, handlers, incoming)
    && ReadySet(byId, handlers, incoming, ready)
  }

  lemma LoopStart(specs: seq<OrderingSpec>, byId: map<Id, OrderingSpec>, incoming: map<Id, nat>, ready: set<ReadyKey>)
    requires IsIndex(specs, byId) && Counted(ConstraintGraph(specs), incoming)
    requires ready == set h | h in incoming && h in byId && incoming[h] == 0 :: KeyOf(byId[h])
    ensures LoopState(specs, byId, [], incoming, ready)
  {
    var g := ConstraintGraph(specs);
    assert g.Keys - Elements([]) == g.Keys;
    forall h | h in byId && h in incoming && incoming[h] == 0 ensures KeyOf(byId[h]) in ready {
    }
  }

  lemma NextIsReleasable(specs: seq<OrderingSpec>, byId: map<Id, OrderingSpec>, handlers: seq<Id>,
                         incoming: map<Id, nat>, ready: set<ReadyKey>, next: ReadyKey)
    requires LoopState(specs, byId, handlers, incoming, ready) && next in ready
    ensures next.handler in Known(specs) && next.handler !in handlers
    ensures Releasable(ConstraintGraph(specs)[next.handler], incoming, byId)
  {
    var g := ConstraintGraph(specs);
    forall t | t in g[next.handler] ensures t in incoming && t in byId && incoming[t] > 0 {
      TargetsAreCounted(g, handlers, incoming, next.handler, t);
    }
  }

  lemma LoopStep(specs: seq<OrderingSpec>, byId: map<Id, OrderingSpec>, handlers: seq<Id>,
                 incoming: map<Id, nat>, ready: set<ReadyKey>, next: ReadyKey,
                 incoming': map<Id, nat>, ready': set<ReadyKey>)
    requires LoopState(specs, byId, handlers, incoming, ready)
    requires next in ready && forall k :: k in ready ==> k == next || KeyLess(next, k)
    requires next.handler in ConstraintGraph(specs)
    requires Released(ConstraintGraph(specs)[next.handler], incoming, ready - {next}, byId, incoming', ready')
    ensures LoopState(specs, byId, handlers + [next.handler], incoming', ready')
    ensures Elements(handlers + [next.handler]) == Elements(handlers) + {next.handler}
  {
    StepKeepsGreedy(specs, byId, handlers, incoming, ready, next);
    StepKeepsCounts(specs, byId, handlers, incoming, ready, next, incoming', ready');
  }

  lemma StepKeepsGreedy(specs: seq<OrderingSpec>, byId: map<Id, OrderingSpec>, handlers: seq<Id>,
                        incoming: map<Id, nat>, ready: set<ReadyKey>, next: ReadyKey)
    requires LoopState(specs, byId, handlers, incoming, ready)
    requires next in ready && forall k :: k in ready ==> k == next || KeyLess(next, k)
    ensures GreedyPrefix(specs, handlers + [next.handler])
    ensures Elements(handlers + [next.handler]) == Elements(handlers) + {next.handler}
  {
    PopIsGreedy(specs, byId, handlers, incoming, ready, next);
    GreedyExtends(specs, handlers, next.handler);
  }

  lemma StepKeepsCounts(specs: seq<OrderingSpec>, byId: map<Id, OrderingSpec>, handlers: seq<Id>,
                        incoming: map<Id, nat>, ready: set<ReadyKey>, next: ReadyKey,
                        incoming': map<Id, nat>, ready': set<ReadyKey>)
    requires LoopState(specs, byId, handlers, incoming, ready)
    requires next in ready && next.handler in ConstraintGraph(specs)
    requires Released(ConstraintGraph(specs)[next.handler], incoming, ready - {next}, byId, incoming', ready')
    ensures Remaining(ConstraintGraph(specs), handlers + [next.handler], incoming')
    ensures PlacedAreFree(ConstraintGraph(specs), handlers + [next.handler], incoming')
    ensures ReadySet(byId, handlers + [next.handler], incoming', ready')
  {
    var g := ConstraintGraph(specs);
    NextIsReleasable(specs, byId, handlers, incoming, ready, next);
    PlaceKeepsRemaining(g, handlers, incoming, incoming', next.handler);
    ReadySetAfter(g, byId, handlers, incoming, ready, next, incoming', ready');
  }

  /** When the ready set is empty, exactly the placed handlers have indegree zero. */
  lemma LoopEnd(specs: seq<OrderingSpec>, byId: map<Id, OrderingSpec>, handlers: seq<Id>, incoming: map<Id, nat>)
    requires LoopState(specs, byId, handlers, incoming, {})
    ensures Placed(specs, handlers, incoming)
  {
  }

  ghost predicate Placed(specs: seq<OrderingSpec>, handlers: seq<Id>, incoming: map<Id, nat>) {
    var g := ConstraintGraph(specs);
    && GreedyPrefix(specs, handlers)
    && Remaining(g, handlers, incoming)
    && forall h :: h in g ==> (incoming[h] == 0 <==> h in handlers)
  }

  method PlaceHandlers(specs: seq<OrderingSpec>, outgoing: Graph, incoming0: map<Id, nat>)
    returns (handlers: seq<Id>, incoming: map<Id, nat>)
    requires WellDeclared(specs) && outgoing == ConstraintGraph(specs) && Counted(outgoing, incoming0)
    ensures Placed(specs, handlers, incoming)
  {
    var byId := IndexById(specs);
    incoming, handlers := incoming0, [];
    var ready: set<ReadyKey> := set h | h in incoming && h in byId && incoming[h] == 0 :: KeyOf(byId[h]);
    LoopStart(specs, byId, incoming, ready);
    while ready != {}
      invariant LoopState(specs, byId, handlers, incoming, ready)
      decreases Known(specs) - Elements(handlers)
    {
      var next := LeastKey(ready);
      NextIsReleasable(specs, byId, handlers, incoming, ready, next);
      var incoming', ready' := Release(outgoing[next.handler], incoming, ready - {next}, byId);
      LoopStep(specs, byId, handlers, incoming, ready, next, incoming', ready');
      handlers, incoming, ready := handlers + [next.handler], incoming', ready';
    }
    LoopEnd(specs, byId, handlers, incoming);
  }

  // ---------------------------------------------------------------- cycle extraction

  /** Finished nodes are listed so that every unresolved successor precedes its source. */
  ghost predicate SearchState(g: Graph, unresolved: set<Id>, visiting: seq<Id>, visited: set<Id>,
                              finished: seq<Id>) {
    && Elements(visiting) <= visited <= unresolved
    && Distinct(finished)
    && Elements(finished) == visited - Elements(visiting)
    && forall i, t :: 0 <= i < |finished| && Edge(g, finished[i], t) && t in unresolved ==> t in finished[..i]
  }

  lemma FinishNode(g: Graph, unresolved: set<Id>, visiting: seq<Id>, visited: set<Id>,
                   finished: seq<Id>, node: Id)
    requires SearchState(g, unresolved, visiting + [node], visited, finished)
    requires node !in visiting
    requires forall t :: Edge(g, node, t) && t in unresolved ==> t in finished
    ensures SearchState(g, unresolved, visiting, visited, finished + [node])
  {
    var f := finished + [node];
    assert node in Elements(visiting + [node]);
    assert Elements(visiting + [node]) == Elements(visiting) + {node};
    assert Elements(f) == Elements(finished) + {node};
    forall i, t | 0 <= i < |f| && Edge(g, f[i], t) && t in unresolved ensures t in f[..i] {
      if i < |finished| {
        assert f[..i] == finished[..i];
      } else {
        assert f[..i] == finished;
      }
    }
  }

  lemma CloseCycle(g: Graph, unresolved: set<Id>, visiting: seq<Id>, index: nat, node: Id)
    requires index < |visiting| && visiting[index] == node && IsWalk(g, visiting + [node])
    requires Elements(visiting) <= unresolved
    ensures IsCycle(g, visiting[index..] + [node])
    ensures Within(visiting[index..] + [node], unresolved)
  {
    var p := visiting + [node];
    SubWalk(g, p, index, |p|);
    assert p[index..|p|] == visiting[index..] + [node];
    forall i | 0 <= i < |visiting[index..] + [node]| ensures (visiting[index..] + [node])[i] in unresolved {
      assert (visiting[index..] + [node])[i] == if index + i < |visiting| then visiting[index + i] else node;
    }
  }

  function FirstIndex(path: seq<Id>, x: Id): (i: nat)
    requires x in path
    ensures i < |path| && path[i] == x && x !in path[..i]
  {
    if path[0] == x then 0
    else
      var i := FirstIndex(path[1..], x);
      assert path[..i + 1] == [path[0]] + path[1..][..i];
      i + 1
  }

  /** What a search returns: the cycle it met, if any, and the nodes visited so far. */
  datatype Found = Found(cycle: Option<seq<Id>>, visited: set<Id>)

  /** The search from one node along the current path, targets in identifier order. */
  function SearchNode(g: Graph, unresolved: set<Id>, node: Id, visiting: seq<Id>, visited: set<Id>): (r: Found)
    requires node in unresolved && unresolved <= g.Keys
    ensures visited <= r.visited
    decreases |unresolved - visited|, 0
  {
    if node in visiting then Found(Some(visiting[FirstIndex(visiting, node)..] + [node]), visited)
    else if node in visited then Found(None, visited)
    else
      SmallerSearch(unresolved, visited, visited + {node}, node);
      SearchAll(g, unresolved, Ascending(g[node]), visiting + [node], visited + {node})
  }

  function SearchAll(g: Graph, unresolved: set<Id>, targets: seq<Id>, visiting: seq<Id>, visited: set<Id>): (r: Found)
    requires unresolved <= g.Keys
    ensures visited <= r.visited
    decreases |unresolved - visited|, 1 + |targets|
  {
    if targets == [] then Found(None, visited)
    else if targets[0] !in unresolved then SearchAll(g, unresolved, targets[1..], visiting, visited)
    else
      var r := SearchNode(g, unresolved, targets[0], visiting, visited);
      if r.cycle.Some? then r
      else
        SubsetSize(unresolved - r.visited, unresolved - visited);
        SearchAll(g, unresolved, targets[1..], visiting, r.visited)
  }

  /** The path the compiler reports for a set of unresolved handlers. */
  function CyclePath(g: Graph, unresolved: set<Id>): seq<Id>
    requires unresolved <= g.Keys
  {
    var r := SearchAll(g, unresolved, Ascending(unresolved), [], {});
    if r.cycle.Some? then r.cycle.value else Ascending(unresolved)
  }

  /** What a visit keeps while it goes through its targets: the search state along `path`, progress,
      and that the rest of the loop still determines the result. */
  ghost predicate Exploring(g: Graph, unresolved: set<Id>, path: seq<Id>, visited0: set<Id>, finished0: seq<Id>,
                            targets: seq<Id>, i: nat, visited: set<Id>, finished: seq<Id>, result: Found)
    requires unresolved <= g.Keys && i <= |targets|
  {
    && visited0 <= visited && finished0 <= finished
    && SearchState(g, unresolved, path, visited, finished)
    && SearchedUpTo(unresolved, targets, i, finished)
    && result == SearchAll(g, unresolved, targets[i..], path, visited)
  }

  lemma SkipTarget(g: Graph, unresolved: set<Id>, path: seq<Id>, visited0: set<Id>, finished0: seq<Id>,
                   targets: seq<Id>, i: nat, visited: set<Id>, finished: seq<Id>, result: Found)
    requires unresolved <= g.Keys && i < |targets| && targets[i] !in unresolved
    requires Exploring(g, unresolved, path, visited0, finished0, targets, i, visited, finished, result)
    ensures Exploring(g, unresolved, path, visited0, finished0, targets, i + 1, visited, finished, result)
  {
    assert targets[i..][0] == targets[i] && targets[i..][1..] == targets[i + 1..];
  }

  lemma CycleEndsSearch(g: Graph, unresolved: set<Id>, path: seq<Id>, targets: seq<Id>, i: nat, visited: set<Id>)
    requires unresolved <= g.Keys && i < |targets| && targets[i] in unresolved
    requires SearchNode(g, unresolved, targets[i], path, visited).cycle.Some?
    ensures SearchAll(g, unresolved, targets[i..], path, visited)
      == SearchNode(g, unresolved, targets[i], path, visited)
  {
  }

  lemma TargetSearched(g: Graph, unresolved: set<Id>, path: seq<Id>, visited0: set<Id>, finished0: seq<Id>,
                       targets: seq<Id>, i: nat, visited: set<Id>, finished: seq<Id>, result: Found,
                       visited': set<Id>, finished': seq<Id>)
    requires unresolved <= g.Keys && i < |targets| && targets[i] in unresolved
    requires Exploring(g, unresolved, path, visited0, finished0, targets, i, visited, finished, result)
    requires SearchNode(g, unresolved, targets[i], path, visited) == Found(None, visited')
    requires SearchState(g, unresolved, path, visited', finished')
    requires visited <= visited' && finished <= finished' && targets[i] in finished'
    ensures Exploring(g, unresolved, path, visited0, finished0, targets, i + 1, visited', finished', result)
  {
    assert targets[i..][0] == targets[i] && targets[i..][1..] == targets[i + 1..];
    SearchedMore(unresolved, targets, i, finished, finished');
  }

  /** Depth-first visit: returns a cycle through the current path, or finishes the node. */
  method Visit(node: Id, g: Graph, unresolved: set<Id>, visiting: seq<Id>, visited: set<Id>,
               ghost finished: seq<Id>)
    returns (cycle: Option<seq<Id>>, visited': set<Id>, ghost finished': seq<Id>)
    requires node in unresolved && unresolved <= g.Keys
    requires SearchState(g, unresolved, visiting, visited, finished)
    requires IsWalk(g, visiting + [node])
    ensures Found(cycle, visited') == SearchNode(g, unresolved, node, visiting, visited)
    ensures cycle.Some? ==> IsCycle(g, cycle.value) && Within(cycle.value, unresolved)
    ensures cycle.None? ==> SearchState(g, unresolved, visiting, visited', finished')
    ensures cycle.None? ==> visited <= visited' && finished <= finished' && node in finished'
    decreases |unresolved - visited|, 0
  {
    cycle, visited', finished' := None, visited, finished;
    if node in visiting {
      var index := FirstIndex(visiting, node);
      CloseCycle(g, unresolved, visiting, index, node);
      cycle := Some(visiting[index..] + [node]);
      return;
    }
    if node in visited {
      assert node in Elements(finished);
      return;
    }
    visited' := visited + {node};
    EnterNode(g, unresolved, visiting, visited, finished, node);
    SmallerSearch(unresolved, visited, visited', node);
    var targets := Ascending(g[node]);
    cycle, visited', finished' := VisitTargets(g, unresolved, visiting + [node], visited', finished, targets, node);
    if cycle.None? {
      LeaveNode(g, unresolved, visiting, visited', finished', node, targets);
      finished' := finished' + [node];
    }
  }

  /** Visits the targets of the last node of the path, until one closes a cycle. */
  method VisitTargets(g: Graph, unresolved: set<Id>, path: seq<Id>, visited: set<Id>, ghost finished: seq<Id>,
                      targets: seq<Id>, node: Id)
    returns (cycle: Option<seq<Id>>, visited': set<Id>, ghost finished': seq<Id>)
    requires node in unresolved && unresolved <= g.Keys && targets == Ascending(g[node])
    requires SearchState(g, unresolved, path, visited, finished)
    requires IsWalk(g, path) && path[|path| - 1] == node
    ensures Found(cycle, visited') == SearchAll(g, unresolved, targets, path, visited)
    ensures cycle.Some? ==> IsCycle(g, cycle.value) && Within(cycle.value, unresolved)
    ensures cycle.None? ==> SearchState(g, unresolved, path, visited', finished')
    ensures cycle.None? ==> visited <= visited' && finished <= finished'
    ensures cycle.None? ==> SearchedUpTo(unresolved, targets, |targets|, finished')
    decreases |unresolved - visited|, 1
  {
    cycle, visited', finished' := None, visited, finished;
    ghost var result := SearchAll(g, unresolved, targets, path, visited);
    assert targets[0..] == targets;
    for i := 0 to |targets|
      invariant cycle.None?
      invariant Exploring(g, unresolved, path, visited, finished, targets, i, visited', finished', result)
    {
      var t := targets[i];
      if t in unresolved {
        assert t in targets;
        ExtendPath(g, path, t);
        SubsetSize(unresolved - visited', unresolved - visited);
        ghost var before, seen := finished', visited';
        cycle, visited', finished' := Visit(t, g, unresolved, path, visited', finished');
        if cycle.Some? {
          CycleEndsSearch(g, unresolved, path, targets, i, seen);
          return;
        }
        TargetSearched(g, unresolved, path, visited, finished, targets, i, seen, before, result, visited', finished');
      } else {
        SkipTarget(g, unresolved, path, visited, finished, targets, i, visited', finished', result);
      }
    }
    assert targets[|targets|..] == [];
  }

  ghost predicate SearchedUpTo(unresolved: set<Id>, targets: seq<Id>, i: nat, finished: seq<Id>)
    requires i <= |targets|
  {
    forall k :: 0 <= k < i && targets[k] in unresolved ==> targets[k] in finished
  }

  lemma SearchedMore(unresolved: set<Id>, targets: seq<Id>, i: nat, before: seq<Id>, finished: seq<Id>)
    requires i < |targets| && SearchedUpTo(unresolved, targets, i, before)
    requires before <= finished && targets[i] in finished
    ensures SearchedUpTo(unresolved, targets, i + 1, finished)
  {
    forall k | 0 <= k < i + 1 && targets[k] in unresolved ensures targets[k] in finished {
      if k < i {
        var m :| 0 <= m < |before| && before[m] == targets[k];
        assert finished[m] == before[m];
      }
    }
  }

  lemma LeaveNode(g: Graph, unresolved: set<Id>, visiting: seq<Id>, visited: set<Id>,
                  finished: seq<Id>, node: Id, targets: seq<Id>)
    requires SearchState(g, unresolved, visiting + [node], visited, finished)
    requires node in g && targets == Ascending(g[node]) && node !in visiting
    requires SearchedUpTo(unresolved, targets, |targets|, finished)
    ensures SearchState(g, unresolved, visiting, visited, finished + [node])
  {
    forall t | Edge(g, node, t) && t in unresolved ensures t in finished {
      assert t in targets;
    }
    FinishNode(g, unresolved, visiting, visited, finished, node);
  }

  lemma SmallerSearch(unresolved: set<Id>, visited: set<Id>, visited': set<Id>, node: Id)
    requires node in unresolved && node !in visited && visited + {node} <= visited'
    ensures |unresolved - visited'| < |unresolved - visited|
  {
    SmallerSet(unresolved - visited', unresolved - visited);
  }

  lemma SmallerSet(a: set<Id>, b: set<Id>)
    requires a < b
    ensures |a| < |b|
  {
    SubsetSize(a, b);
  }

  lemma EnterNode(g: Graph, unresolved: set<Id>, visiting: seq<Id>, visited: set<Id>,
                  finished: seq<Id>, node: Id)
    requires SearchState(g, unresolved, visiting, visited, finished)
    requires node in unresolved && node !in visited
    ensures SearchState(g, unresolved, visiting + [node], visited + {node}, finished)
  {
    assert Elements(visiting + [node]) == Elements(visiting) + {node};
  }

  lemma ExtendPath(g: Graph, path: seq<Id>, t: Id)
    requires IsWalk(g, path) && Edge(g, path[|path| - 1], t)
    ensures IsWalk(g, path + [t])
  {
  }

  /** A complete search that found nothing certifies that the unresolved nodes hold no cycle. */
  lemma FinishedMeansAcyclic(g: Graph, unresolved: set<Id>, finished: seq<Id>, c: seq<Id>)
    requires SearchState(g, unresolved, [], unresolved, finished)
    ensures !(IsCycle(g, c) && Within(c, unresolved))
  {
    if IsCycle(g, c) && Within(c, unresolved) {
      var n := |finished|;
      var order := seq(n, i requires 0 <= i < n => finished[n - 1 - i]);
      forall x | x in finished ensures x in order {
        var i :| 0 <= i < n && finished[i] == x;
        assert order[n - 1 - i] == x;
      }
      forall i, j | 0 <= i < n && 0 <= j < n && Edge(g, order[i], order[j]) ensures i < j {
        var a, b := n - 1 - i, n - 1 - j;
        assert finished[b] in Elements(finished);
        assert finished[b] in finished[..a];
        var k :| 0 <= k < a && finished[..a][k] == finished[b];
        assert finished[k] == finished[b];
      }
      assert Within(c, Elements(order));
      ForwardBoundsWalks(g, order, c);
      assert false;
    }
  }

  /** What the search promises about its path. */
  ghost predicate Searched(g: Graph, unresolved: set<Id>, path: seq<Id>) {
    && unresolved <= g.Keys && path == CyclePath(g, unresolved)
    && ((IsCycle(g, path) && Within(path, unresolved)) || forall c :: IsCycle(g, c) ==> !Within(c, unresolved))
  }

  /** Either a genuine closed cycle among the unresolved nodes, or the plain node list when there is
      none to find; and always the path that the ordered search determines. */
  method FindCycle(g: Graph, unresolved: set<Id>) returns (path: seq<Id>)
    requires unresolved <= g.Keys
    ensures Searched(g, unresolved, path)
    ensures (IsCycle(g, path) && Within(path, unresolved))
      || (path == Ascending(unresolved) && forall c :: IsCycle(g, c) ==> !Within(c, unresolved))
  {
    var visited: set<Id> := {};
    ghost var finished: seq<Id> := [];
    var roots := Ascending(unresolved);
    for i := 0 to |roots|
      invariant SearchState(g, unresolved, [], visited, finished)
      invariant SearchedUpTo(unresolved, roots, i, finished)
      invariant SearchAll(g, unresolved, roots, [], {}) == SearchAll(g, unresolved, roots[i..], [], visited)
    {
      assert IsWalk(g, [] + [roots[i]]);
      assert roots[i] in roots;
      assert roots[i..][0] == roots[i] && roots[i..][1..] == roots[i + 1..];
      ghost var before := finished;
      var cycle;
      cycle, visited, finished := Visit(roots[i], g, unresolved, [], visited, finished);
      if cycle.Some? {
        return cycle.value;
      }
      SearchedMore(unresolved, roots, i, before, finished);
    }
    AllSearched(unresolved, visited, roots, finished);
    forall c | IsCycle(g, c) ensures !Within(c, unresolved) {
      FinishedMeansAcyclic(g, unresolved, finished, c);
    }
    path := roots;
  }

  lemma AllSearched(unresolved: set<Id>, visited: set<Id>, roots: seq<Id>, finished: seq<Id>)
    requires visited <= unresolved && Elements(finished) == visited && (forall x :: x in roots <==> x in unresolved)
    requires SearchedUpTo(unresolved, roots, |roots|, finished)
    ensures visited == unresolved
  {
    forall x | x in unresolved ensures x in visited {
      assert x in roots;
      assert x in Elements(finished);
    }
  }

  // ---------------------------------------------------------------- unresolved handlers

  ghost predicate Fed(g: Graph, s: set<Id>, b: Id) {
    exists a :: a in s && Edge(g, a, b)
  }

  /** Each element waits for another. */
  ghost predicate AllFed(g: Graph, s: set<Id>) {
    forall b {:trigger Fed(g, s, b)} :: b in s ==> Fed(g, s, b)
  }

  /** Every source of a placed handler is placed before it. */
  ghost predicate Settled(g: Graph, placed: seq<Id>) {
    forall k, a :: 0 <= k < |placed| && Edge(g, a, placed[k]) ==> a in placed[..k]
  }

  /** Placing stopped: what is placed is settled, and each of the others waits for another of them. */
  ghost predicate Stuck(g: Graph, placed: seq<Id>, unresolved: set<Id>) {
    unresolved == g.Keys - Elements(placed) && Settled(g, placed) && AllFed(g, unresolved)
  }

  lemma {:induction false} PlacedDoNotWait(g: Graph, placed: seq<Id>, s: set<Id>, k: nat)
    requires Settled(g, placed) && k < |placed| && AllFed(g, s)
    ensures placed[k] !in s
    decreases k
  {
    if placed[k] in s {
      assert Fed(g, s, placed[k]);
      var a :| a in s && Edge(g, a, placed[k]);
      var m :| 0 <= m < k && placed[..k][m] == a;
      PlacedDoNotWait(g, placed, s, m);
      assert false;
    }
  }

  /** The constraint graph alone determines which handlers stay unresolved. */
  lemma StuckIsUnique(g: Graph, placed: seq<Id>, unresolved: set<Id>, placed': seq<Id>, unresolved': set<Id>)
    requires Stuck(g, placed, unresolved) && Stuck(g, placed', unresolved')
    ensures unresolved == unresolved'
  {
    forall x | x in placed ensures x !in unresolved' {
      var k :| 0 <= k < |placed| && placed[k] == x;
      PlacedDoNotWait(g, placed, unresolved', k);
    }
    forall x | x in placed' ensures x !in unresolved {
      var k :| 0 <= k < |placed'| && placed'[k] == x;
      PlacedDoNotWait(g, placed', unresolved, k);
    }
  }

  lemma GreedyIsSettled(specs: seq<OrderingSpec>, handlers: seq<Id>)
    requires GreedyPrefix(specs, handlers)
    ensures Settled(ConstraintGraph(specs), handlers)
  {
    var g := ConstraintGraph(specs);
    forall k, a | 0 <= k < |handlers| && Edge(g, a, handlers[k]) ensures a in handlers[..k] {
      assert GreedyAt(specs, handlers, k);
    }
  }

  lemma RemainingAreFed(g: Graph, placed: seq<Id>, left: map<Id, nat>, unresolved: set<Id>)
    requires Remaining(g, placed, left) && (forall h :: h in g ==> (left[h] == 0 <==> h in placed))
    requires unresolved == Counting(left)
    ensures unresolved == g.Keys - Elements(placed) && AllFed(g, unresolved)
  {
    assert unresolved == g.Keys - Elements(placed);
    forall b | b in unresolved ensures Fed(g, unresolved, b) {
      SourcesPositive(g, unresolved, b);
    }
  }

  lemma PlacedIsStuck(specs: seq<OrderingSpec>, handlers: seq<Id>, left: map<Id, nat>, unresolved: set<Id>)
    requires Placed(specs, handlers, left) && unresolved == Counting(left)
    ensures Stuck(ConstraintGraph(specs), handlers, unresolved)
  {
    GreedyIsSettled(specs, handlers);
    RemainingAreFed(ConstraintGraph(specs), handlers, left, unresolved);
  }

  // ---------------------------------------------------------------- compile_order

  /** Handlers that could not be placed hold a cycle, so the search finds one. */
  lemma StuckHasCycle(specs: seq<OrderingSpec>, g: Graph, handlers: seq<Id>, left: map<Id, nat>, unresolved: set<Id>)
    requires Placed(specs, handlers, left) && Elements(handlers) != Known(specs)
    requires g == ConstraintGraph(specs) && unresolved == Counting(left)
    ensures Stuck(g, handlers, unresolved) && unresolved <= g.Keys
    ensures exists c :: IsCycle(g, c) && Within(c, unresolved)
  {
    PlacedIsStuck(specs, handlers, left, unresolved);
    StuckMeansCycle(ConstraintGraph(specs), handlers, left, unresolved);
  }

  /** Every handler is placed exactly when as many are placed as were registered. */
  lemma AllPlacedWhen(specs: seq<OrderingSpec>, handlers: seq<Id>, left: map<Id, nat>)
    requires WellDeclared(specs) && Placed(specs, handlers, left)
    ensures |handlers| == |specs| <==> Elements(handlers) == Known(specs)
  {
    UniqueCount(specs);
    DistinctLength(handlers);
    SubsetSize(Elements(handlers), Known(specs));
  }

  lemma SearchedIsReported(g: Graph, handlers: seq<Id>, unresolved: set<Id>, path: seq<Id>)
    requires Stuck(g, handlers, unresolved) && Searched(g, unresolved, path)
    requires exists c :: IsCycle(g, c) && Within(c, unresolved)
    ensures ReportsCycle(g, path)
  {
  }

  method ReportCycle(g: Graph, ghost handlers: seq<Id>, left: map<Id, nat>) returns (path: seq<Id>)
    requires Stuck(g, handlers, Counting(left)) && exists c :: IsCycle(g, c) && Within(c, Counting(left))
    ensures ReportsCycle(g, path)
  {
    var unresolved := Counting(left);
    path := FindCycle(g, unresolved);
    SearchedIsReported(g, handlers, unresolved, path);
  }

  lemma ReportedCycleCompiles(specs: seq<OrderingSpec>, path: seq<Id>)
    requires WellDeclared(specs) && ReportsCycle(ConstraintGraph(specs), path)
    ensures CompilesTo(specs, Rejected([OrderingCycle(path)]))
  {
  }

  lemma FullOrderCompiles(specs: seq<OrderingSpec>, handlers: seq<Id>, left: map<Id, nat>)
    requires WellDeclared(specs) && Placed(specs, handlers, left) && |handlers| == |specs|
    requires Elements(handlers) == Known(specs)
    ensures CompilesTo(specs, Compiled(handlers))
  {
  }

  method CompileOrder(specs: seq<OrderingSpec>) returns (r: Outcome)
    ensures CompilesTo(specs, r)
  {
    var ds := DeclarationDiagnostics(specs);
    FaultlessIsWellDeclared(specs);
    if ds != [] {
      assert ds[0] in ds;
      return Rejected(Sort(ds, PrintsBefore));
    }
    r := OrderHandlers(specs);
  }

  /** The order of well-declared handlers, or the cycle that prevents one. */
  method OrderHandlers(specs: seq<OrderingSpec>) returns (r: Outcome)
    requires WellDeclared(specs)
    ensures CompilesTo(specs, r)
  {
    var outgoing, incoming := BuildGraph(specs);
    var handlers, left := PlaceHandlers(specs, outgoing, incoming);
    AllPlacedWhen(specs, handlers, left);
    if |handlers| != |specs| {
      StuckHasCycle(specs, outgoing, handlers, left, Counting(left));
      var path := ReportCycle(outgoing, handlers, left);
      ReportedCycleCompiles(specs, path);
      return Rejected([OrderingCycle(path)]);
    }
    FullOrderCompiles(specs, handlers, left);
    return Compiled(handlers);
  }

  // ---------------------------------------------------------------- main results

  /** A greedy order lists every constraint's source before its target. */
  lemma GreedyIsForward(specs: seq<OrderingSpec>, hs: seq<Id>)
    requires IsGreedyOrder(specs, hs)
    ensures Forward(ConstraintGraph(specs), hs)
  {
    var g := ConstraintGraph(specs);
    forall i, j | 0 <= i < |hs| && 0 <= j < |hs| && Edge(g, hs[i], hs[j]) ensures i < j {
      assert GreedyAt(specs, hs, j);
      assert hs[i] in hs[..j];
      var k :| 0 <= k < j && hs[..j][k] == hs[i];
      assert hs[k] == hs[i];
    }
  }

  /** Compilation of well-declared handlers fails exactly when their constraints have a cycle. */
  lemma FailsExactlyOnCycles(specs: seq<OrderingSpec>, r: Outcome)
    requires WellDeclared(specs) && CompilesTo(specs, r)
    ensures r.Rejected? <==> exists c :: IsCycle(ConstraintGraph(specs), c)
  {
    var g := ConstraintGraph(specs);
    if r.Compiled? {
      GreedyIsForward(specs, r.handlers);
      forall c | IsCycle(g, c) ensures false {
        CycleStaysInside(g, c);
        assert Within(c, Elements(r.handlers)) by {
          forall i | 0 <= i < |c| ensures c[i] in Elements(r.handlers) { assert c[i] in g.Keys; }
        }
        ForwardBoundsWalks(g, r.handlers, c);
      }
    } else {
      assert IsCycle(g, r.diagnostics[0].path);
    }
  }

  lemma CycleStaysInside(g: Graph, c: seq<Id>)
    requires IsCycle(g, c)
    ensures Within(c, g.Keys)
  {
    forall i | 0 <= i < |c| ensures c[i] in g.Keys {
      var k := if i < |c| - 1 then i else 0;
      assert Edge(g, c[k], c[k + 1]);
    }
  }

  lemma KeysDoNotPrecedeEachOther(a: ReadyKey, b: ReadyKey)
    ensures !(KeyLess(a, b) && KeyLess(b, a))
  {
    KeyOrderIsTotal();
  }

  /** After the same prefix, both orders take the same handler next. */
  lemma SameNext(specs: seq<OrderingSpec>, hs: seq<Id>, hs': seq<Id>, k: nat)
    requires k < |hs| && k < |hs'| && hs[..k] == hs'[..k]
    requires GreedyAt(specs, hs, k) && GreedyAt(specs, hs', k)
    requires hs[k] in Known(specs) && hs'[k] in Known(specs)
    ensures hs[k] == hs'[k]
  {
    var i :| 0 <= i < |specs| && specs[i].handler == hs[k];
    var j :| 0 <= j < |specs| && specs[j].handler == hs'[k];
    KeysDoNotPrecedeEachOther(KeyOf(specs[i]), KeyOf(specs[j]));
    assert specs[i] in specs && specs[j] in specs;
  }

  /** The greedy order of a set of specifications is unique. */
  lemma {:induction false} GreedyPrefixUnique(specs: seq<OrderingSpec>, hs: seq<Id>, hs': seq<Id>, n: nat)
    requires IsGreedyOrder(specs, hs) && IsGreedyOrder(specs, hs') && |hs| == |hs'| && n <= |hs|
    ensures hs[..n] == hs'[..n]
  {
    if n == 0 {
    } else {
      var k := n - 1;
      GreedyPrefixUnique(specs, hs, hs', k);
      assert hs[k] in Elements(hs) && hs'[k] in Elements(hs');
      SameNext(specs, hs, hs', k);
      assert hs[..n] == hs[..k] + [hs[k]] && hs'[..n] == hs'[..k] + [hs'[k]];
    }
  }

  lemma SameMembers(specs: seq<OrderingSpec>, specs': seq<OrderingSpec>)
    requires SameRegistrations(specs, specs')
    ensures forall s :: s in specs <==> s in specs'
    ensures Known(specs) == Known(specs') && |specs| == |specs'|
    ensures ConstraintGraph(specs) == ConstraintGraph(specs')
  {
    SameKnown(specs, specs');
    assert forall a, b :: Constraint(specs, a, b) <==> Constraint(specs', a, b);
    var g, g' := ConstraintGraph(specs), ConstraintGraph(specs');
    assert forall a :: a in g ==> g[a] == g'[a];
  }

  /** Every registration order of well-declared handlers gives the same result, order or cycle. Lists
      with declaration faults are all rejected with the same printed report, and with the same
      diagnostics when no two different faults print alike. */
  lemma RegistrationOrderIsIrrelevant(specs: seq<OrderingSpec>, specs': seq<OrderingSpec>, r: Outcome, r': Outcome)
    requires SameRegistrations(specs, specs') && CompilesTo(specs, r) && CompilesTo(specs', r')
    ensures WellDeclared(specs) || PrintApart(specs) ==> r == r'
    ensures !WellDeclared(specs) ==>
      r.Rejected? && r'.Rejected? && Map(r.diagnostics, PrintKeyOf) == Map(r'.diagnostics, PrintKeyOf)
  {
    SameFaults(specs, specs');
    if WellDeclared(specs) {
      SameResult(specs, specs', r, r');
    } else {
      PrintedReportIsStable(specs, specs');
      if PrintApart(specs) {
        ApartReportIsStable(specs, specs');
      }
    }
  }

  /** The compiler's whole result is independent of the registration order exactly when the handlers
      are well declared or no two different faults print alike. */
  lemma ResultIsStableIff(specs: seq<OrderingSpec>)
    ensures (forall specs', r, r' :: SameRegistrations(specs, specs') && CompilesTo(specs, r) && CompilesTo(specs', r')
               ==> r == r')
       <==> WellDeclared(specs) || PrintApart(specs)
  {
    if WellDeclared(specs) || PrintApart(specs) {
      forall specs', r, r' | SameRegistrations(specs, specs') && CompilesTo(specs, r) && CompilesTo(specs', r')
        ensures r == r'
      {
        RegistrationOrderIsIrrelevant(specs, specs', r, r');
      }
    } else {
      ReportIsStableIff(specs);
      var specs' :| SameRegistrations(specs, specs') && Report(specs') != Report(specs);
      SameFaults(specs, specs');
      assert CompilesTo(specs, Rejected(Report(specs))) && CompilesTo(specs', Rejected(Report(specs')));
    }
  }

  /** A rejected, well-declared list reports one path, and that is the cycle. */
  lemma RejectedPath(specs: seq<OrderingSpec>, r: Outcome) returns (path: seq<Id>)
    requires WellDeclared(specs) && CompilesTo(specs, r) && r.Rejected?
    ensures r == Rejected([OrderingCycle(path)]) && ReportsCycle(ConstraintGraph(specs), path)
  {
    path := r.diagnostics[0].path;
    assert r.diagnostics == [OrderingCycle(path)];
  }

  lemma SameVerdict(specs: seq<OrderingSpec>, specs': seq<OrderingSpec>, r: Outcome, r': Outcome)
    requires CompilesTo(specs, r) && CompilesTo(specs', r')
    requires WellDeclared(specs) && WellDeclared(specs') && ConstraintGraph(specs) == ConstraintGraph(specs')
    ensures r.Compiled? <==> r'.Compiled?
  {
    FailsExactlyOnCycles(specs, r);
    FailsExactlyOnCycles(specs', r');
  }

  lemma SameResult(specs: seq<OrderingSpec>, specs': seq<OrderingSpec>, r: Outcome, r': Outcome)
    requires SameRegistrations(specs, specs') && CompilesTo(specs, r) && CompilesTo(specs', r')
    requires WellDeclared(specs) && WellDeclared(specs')
    ensures r == r'
  {
    SameMembers(specs, specs');
    SameVerdict(specs, specs', r, r');
    if r.Compiled? {
      SameGreedyOrder(specs, specs', r.handlers, r'.handlers);
    } else {
      var path := RejectedPath(specs, r);
      var path' := RejectedPath(specs', r');
      SameCycle(ConstraintGraph(specs), path, path');
    }
  }

  lemma SameCycle(g: Graph, path: seq<Id>, path': seq<Id>)
    requires ReportsCycle(g, path) && ReportsCycle(g, path')
    ensures path == path'
  {
    var placed, unresolved :| Stuck(g, placed, unresolved) && path == CyclePath(g, unresolved);
    var placed', unresolved' :| Stuck(g, placed', unresolved') && path' == CyclePath(g, unresolved');
    StuckIsUnique(g, placed, unresolved, placed', unresolved');
  }

  lemma SameGreedyOrder(specs: seq<OrderingSpec>, specs': seq<OrderingSpec>, hs: seq<Id>, hs': seq<Id>)
    requires SameRegistrations(specs, specs') && |hs| == |hs'|
    requires IsGreedyOrder(specs, hs) && IsGreedyOrder(specs', hs')
    ensures hs == hs'
  {
    SameMembers(specs, specs');
    forall k | 0 <= k < |hs'| ensures GreedyAt(specs, hs', k) {
      assert GreedyAt(specs', hs', k);
    }
    GreedyPrefixUnique(specs, hs, hs', |hs|);
    assert hs[..|hs|] == hs && hs'[..|hs|] == hs';
  }
}
