/** Graph definitions, their validated adjacency, and reachability. */
module GraphModel {
  import opened Ordered
  import opened Digraph

  datatype NodeKind =
    | ContextTransform | ModelCall | ToolExecutionGate | UserApproval | SpawnChildAgent
    | SendChildAgentMessage | WaitForAgents | JoinResultsKind | Review | Loop | ConditionalBranch
    | ParallelBranchKind | Delay | Schedule | EmitEvent | PersistArtifact
    | CompleteTurn | CompleteSession | Fail

  predicate IsTerminal(k: NodeKind) {
    k.CompleteTurn? || k.CompleteSession? || k.Fail?
  }

  datatype MergePolicy = Append | Union | DeepMerge | FirstBranch

  datatype JoinPolicy = All | MinimumSuccess

  datatype JoinFailurePolicy = FailFast | WaitRequired | MinimumSuccess

  datatype Configuration =
    | ParallelBranch(maxParallelism: nat, maxQueueDepth: nat, joinTarget: Id, joinPolicy: JoinPolicy,
                     mergePolicies: map<Id, MergePolicy>, serialized: bool)
    | JoinResults(required: set<Id>, optional: set<Id>, minimumSuccesses: nat, failurePolicy: JoinFailurePolicy,
                  timeoutMs: nat)
    | OtherConfiguration

  datatype Node = Node(
    id: Id, kind: NodeKind, configuration: Option<Configuration>, maxIterations: Option<nat>,
    condition: Option<Id>, writeScopes: set<Id>, readVariables: set<Id>, writeVariables: set<Id>)

  datatype EdgeDefinition = EdgeDefinition(from: Id, to: Id, reference: Option<Id>, condition: Option<Id>)

  datatype VariableScope = NodeScope | BranchScope | RunScope | SessionScope

  datatype Variable = Variable(
    name: Id, producer: Id, contributors: set<Id>, consumers: set<Id>, mutable: bool, scope: VariableScope,
    mergePolicy: Option<MergePolicy>)

  datatype Definition = Definition(
    entry: Id, nodes: seq<Node>, edges: seq<EdgeDefinition>, variables: seq<Variable>)

  /** The compiler limits these passes compare with. */
  datatype CompilerLimits = CompilerLimits(maxLoopIterations: nat, maxParallelism: nat, maxConfigurationItems: nat)

  datatype GraphError =
    | DuplicateNode(node: Id)
    | DuplicateVariable(variable: Id)
    | UnknownEdgeNode(node: Id)
    | DuplicateEdge(edge: EdgeDefinition)
    | UnknownEntry(entry: Id)
    | UnreachableNodes(nodes: set<Id>)
    | MissingTermination
    | TerminalHasOutgoingEdge(node: Id)
    | NoTerminationPath(nodes: set<Id>)
    | ConfigurationKindMismatch(node: Id)
    | ConfigurationCollectionTooLarge(node: Id)
    | InvalidLoopBound(node: Id)
    | LoopBoundOnNonLoop(node: Id)
    | IllegalCycle(nodes: set<Id>)
    | UnknownVariableProducer(variable: Id)
    | VariableProducerDoesNotWrite(variable: Id)
    | InvalidVariableMergeContributors(variable: Id)
    | UnknownVariableMergeContributor(variable: Id)
    | VariableMergeContributorDoesNotWrite(variable: Id)
    | InvalidVariableMergePolicy(variable: Id)
    | InvalidVariableScope(variable: Id)
    | UnknownVariableConsumer(variable: Id)
    | UndeclaredVariableRead(node: Id, variable: Id)
    | UnauthorizedVariableConsumer(node: Id, variable: Id)
    | InvalidCondition(owner: Id)
    | UndeclaredConditionVariable(owner: Id, variable: Id)
    | ConditionVariableNotDeclaredRead(owner: Id, variable: Id)
    | UndeclaredVariableWrite(node: Id, variable: Id)
    | UnauthorizedVariableWriter(node: Id, variable: Id)
    | ParallelNeedsBranches(node: Id)
    | InvalidNodeConfiguration(node: Id)
    | InvalidParallelJoinTarget(node: Id)
    | ConditionalParallelFanout(node: Id)
    | UnlabeledParallelFanout(node: Id)
    | DuplicateParallelMemberReference(node: Id)
    | DuplicateParallelBranchTarget(node: Id)
    | ParallelJoinMemberMismatch(node: Id)
    | ParallelJoinPolicyMismatch(node: Id)
    | ParallelBranchTerminalCompletion(branch: Id, terminal: Id)
    | ParallelBranchBypassesJoin(branch: Id, pathEnd: Id)
    | OverlappingParallelBranchRegions(node: Id)
    | ExternalParallelBranchEntry(node: Id)
    | ExternalParallelJoinEntry(node: Id)
    | ConflictingParallelWrites(node: Id, scope: Id)
    | ConflictingParallelVariableWrites(node: Id, variable: Id)
    | UnknownParallelMergeVariable(node: Id, variable: Id)
    | InvalidParallelMergeContributorOwnership(variable: Id)
    | ParallelMergeContributorPolicyMismatch(variable: Id, node: Id)

  datatype Result<+T> = Ok(value: T) | Err(error: GraphError)

  // ---------------------------------------------------------------- collected nodes

  type NodeMap = map<Id, Node>

  /** Nodes keyed by their own identifiers. */
  ghost predicate WellKeyed(nodes: NodeMap) {
    forall i :: i in nodes ==> nodes[i].id == i
  }

  ghost predicate UniqueIds(ns: seq<Node>) {
    forall i, j :: 0 <= i < j < |ns| ==> ns[i].id != ns[j].id
  }

  /** The map holds exactly the listed nodes. */
  ghost predicate Collects(ns: seq<Node>, nodes: NodeMap) {
    && WellKeyed(nodes)
    && forall n :: n in ns <==> n.id in nodes && nodes[n.id] == n
  }

  method CollectNodes(ns: seq<Node>) returns (r: Result<NodeMap>)
    ensures r.Ok? <==> UniqueIds(ns)
    ensures r.Ok? ==> Collects(ns, r.value)
    ensures r.Err? ==> r.error.DuplicateNode?
  {
    var nodes: NodeMap := map[];
    for i := 0 to |ns|
      invariant WellKeyed(nodes) && UniqueIds(ns[..i])
      invariant forall n :: n in ns[..i] <==> n.id in nodes && nodes[n.id] == n
    {
      assert ns[..i + 1] == ns[..i] + [ns[i]];
      if ns[i].id in nodes {
        var n := nodes[ns[i].id];
        assert n in ns[..i];
        return Err(DuplicateNode(ns[i].id));
      }
      nodes := nodes[ns[i].id := ns[i]];
    }
    assert ns[..|ns|] == ns;
    return Ok(nodes);
  }

  // ---------------------------------------------------------------- adjacency

  ghost predicate HasEdge(es: seq<EdgeDefinition>, a: Id, b: Id) {
    exists e :: e in es && e.from == a && e.to == b
  }

  /** Successor sets over exactly the given nodes and edges. */
  ghost predicate IsAdjacency(ids: set<Id>, es: seq<EdgeDefinition>, g: Graph) {
    && g.Keys == ids
    && forall a, b :: Edge(g, a, b) <==> a in ids && HasEdge(es, a, b)
  }

  ghost predicate IsReverse(g: Graph, r: Graph) {
    r.Keys == g.Keys && forall a, b :: Edge(r, b, a) <==> Edge(g, a, b)
  }

  /** Every edge ends in the graph. */
  ghost predicate Closed(g: Graph) {
    forall a, b :: Edge(g, a, b) ==> b in g
  }

  /** Edges with known endpoints and pairwise distinct identities. */
  ghost predicate ValidEdges(ids: set<Id>, es: seq<EdgeDefinition>) {
    && (forall e :: e in es ==> e.from in ids && e.to in ids)
    && forall i, j :: 0 <= i < j < |es| ==> es[i] != es[j]
  }

  method ValidateEdges(ids: set<Id>, es: seq<EdgeDefinition>) returns (r: Result<()>)
    ensures r.Ok? <==> ValidEdges(ids, es)
    ensures r.Err? ==> r.error.UnknownEdgeNode? || r.error.DuplicateEdge?
  {
    var seen: set<EdgeDefinition> := {};
    for i := 0 to |es|
      invariant ValidEdges(ids, es[..i])
      invariant forall e :: e in seen <==> e in es[..i]
    {
      assert es[..i + 1] == es[..i] + [es[i]];
      if es[i].from !in ids {
        assert es[i] in es;
        return Err(UnknownEdgeNode(es[i].from));
      }
      if es[i].to !in ids {
        assert es[i] in es;
        return Err(UnknownEdgeNode(es[i].to));
      }
      if es[i] in seen {
        return Err(DuplicateEdge(es[i]));
      }
      seen := seen + {es[i]};
    }
    assert es[..|es|] == es;
    return Ok(());
  }

  method Adjacency(ids: set<Id>, es: seq<EdgeDefinition>) returns (g: Graph)
    requires ValidEdges(ids, es)
    ensures IsAdjacency(ids, es, g) && Closed(g)
  {
    g := map i | i in ids :: {};
    for k := 0 to |es|
      invariant IsAdjacency(ids, es[..k], g)
    {
      var e := es[k];
      assert e in es;
      AdjacencyStep(ids, es, k, g);
      g := g[e.from := g[e.from] + {e.to}];
    }
    assert es[..|es|] == es;
  }

  lemma AdjacencyStep(ids: set<Id>, es: seq<EdgeDefinition>, k: nat, g: Graph)
    requires k < |es| && es[k].from in ids && IsAdjacency(ids, es[..k], g)
    ensures IsAdjacency(ids, es[..k + 1], g[es[k].from := g[es[k].from] + {es[k].to}])
  {
    var e := es[k];
    var g' := g[e.from := g[e.from] + {e.to}];
    forall a, b ensures Edge(g', a, b) <==> a in ids && HasEdge(es[..k + 1], a, b) {
      assert es[..k + 1] == es[..k] + [e];
      assert HasEdge(es[..k + 1], a, b) <==> HasEdge(es[..k], a, b) || (a == e.from && b == e.to) by {
        if x :| x in es[..k] && x.from == a && x.to == b { assert x in es[..k + 1]; }
        if a == e.from && b == e.to { assert e in es[..k + 1]; }
      }
      assert Edge(g', a, b) <==> Edge(g, a, b) || (a == e.from && b == e.to);
    }
  }

  /** Predecessor sets. */
  function Reverse(g: Graph): (r: Graph)
    ensures IsReverse(g, r) || !Closed(g)
  {
    map b | b in g :: set a | a in g && b in g[a]
  }

  // ---------------------------------------------------------------- reachability

  /** Breadth-first progress: everything seen is reachable, and nothing adjacent is forgotten. */
  ghost predicate Frontier(g: Graph, start: Id, reached: set<Id>, queue: seq<Id>) {
    && (forall x :: x in reached || x in queue ==> Reachable(g, start, x))
    && (start in reached || start in queue)
    && forall a, b :: a in reached && Edge(g, a, b) ==> b in reached || b in queue
  }

  lemma ReachSelf(g: Graph, a: Id)
    ensures Reachable(g, a, a)
  {
    assert WalkFromTo(g, [a], a, a);
  }

  lemma ReachStep(g: Graph, a: Id, b: Id, c: Id)
    requires Reachable(g, a, b) && Edge(g, b, c)
    ensures Reachable(g, a, c)
  {
    var p :| WalkFromTo(g, p, a, b);
    assert IsWalk(g, [b, c]);
    WalkConcat(g, p, [b, c]);
    assert WalkFromTo(g, p + [b, c][1..], a, c);
  }

  /** One queue entry is skipped or expanded. */
  lemma FrontierStep(g: Graph, start: Id, reached: set<Id>, queue: seq<Id>, targets: seq<Id>)
    requires Frontier(g, start, reached, queue) && queue != []
    requires forall b :: b in targets <==> Edge(g, queue[0], b)
    ensures Reachable(g, start, queue[0])
    ensures queue[0] in reached ==> Frontier(g, start, reached, queue[1..])
    ensures Frontier(g, start, reached + {queue[0]}, queue[1..] + targets)
  {
    var x := queue[0];
    assert queue == [x] + queue[1..];
    assert x in queue;
    forall b | b in targets ensures Reachable(g, start, b) {
      ReachStep(g, start, x, b);
    }
  }

  /** An exhausted frontier has reached exactly the reachable nodes. */
  lemma FrontierDone(g: Graph, start: Id, reached: set<Id>, x: Id)
    requires Frontier(g, start, reached, [])
    ensures x in reached <==> Reachable(g, start, x)
  {
    if Reachable(g, start, x) {
      var p :| WalkFromTo(g, p, start, x);
      ClosedContainsWalk(g, reached, p);
    }
  }

  function Targets(g: Graph, a: Id): (t: seq<Id>)
    ensures forall b :: b in t <==> Edge(g, a, b)
  {
    if a in g then Ascending(g[a]) else []
  }

  lemma SmallerUniverse(u: set<Id>, reached: set<Id>, x: Id)
    requires x in u && x !in reached
    ensures |u - (reached + {x})| < |u - reached|
  {
    assert u - (reached + {x}) == (u - reached) - {x};
  }

  /** Breadth-first search: the set of nodes reachable from `start`. */
  method ReachableFrom(g: Graph, start: Id) returns (reached: set<Id>)
    requires Closed(g) && start in g
    ensures forall x :: x in reached <==> Reachable(g, start, x)
    ensures reached <= g.Keys
  {
    reached := {};
    var queue := [start];
    ReachSelf(g, start);
    while queue != []
      invariant Frontier(g, start, reached, queue)
      invariant reached <= g.Keys && forall x :: x in queue ==> x in g
      decreases |g.Keys - reached|, |queue|
    {
      var node := queue[0];
      assert node in queue;
      var targets := Targets(g, node);
      FrontierStep(g, start, reached, queue, targets);
      if node in reached {
        queue := queue[1..];
      } else {
        SmallerUniverse(g.Keys, reached, node);
        reached := reached + {node};
        queue := queue[1..] + targets;
      }
    }
    forall x ensures x in reached <==> Reachable(g, start, x) {
      FrontierDone(g, start, reached, x);
    }
  }

  lemma {:induction false} ReverseWalk(g: Graph, r: Graph, a: Id, b: Id, p: seq<Id>)
    requires IsReverse(g, r) && WalkFromTo(r, p, b, a)
    ensures Reachable(g, a, b)
    decreases |p|
  {
    if |p| == 1 {
      ReachSelf(g, a);
    } else {
      SubWalk(r, p, 1, |p|);
      assert Edge(r, p[0], p[1]);
      ReverseWalk(g, r, a, p[1], p[1..]);
      ReachStep(g, a, p[1], b);
    }
  }

  lemma ReverseReach(g: Graph, r: Graph, a: Id, b: Id)
    requires IsReverse(g, r)
    ensures Reachable(r, b, a) <==> Reachable(g, a, b)
  {
    if Reachable(r, b, a) {
      var p :| WalkFromTo(r, p, b, a);
      ReverseWalk(g, r, a, b, p);
    }
    if Reachable(g, a, b) {
      var p :| WalkFromTo(g, p, a, b);
      ReverseWalk(r, g, b, a, p);
    }
  }

  // ---------------------------------------------------------------- entry and termination

  ghost predicate AllReachable(g: Graph, entry: Id) {
    entry in g && forall x :: x in g ==> Reachable(g, entry, x)
  }

  method ValidateEntryAndReachability(g: Graph, entry: Id) returns (r: Result<()>)
    requires Closed(g)
    ensures r.Ok? <==> AllReachable(g, entry)
    ensures r.Err? ==> r.error.UnknownEntry? || r.error.UnreachableNodes?
    ensures r.Err? && r.error.UnreachableNodes? ==>
      forall x :: x in r.error.nodes <==> x in g && !Reachable(g, entry, x)
  {
    if entry !in g {
      return Err(UnknownEntry(entry));
    }
    var reached := ReachableFrom(g, entry);
    var unreachable := g.Keys - reached;
    if unreachable == {} {
      forall x | x in g ensures Reachable(g, entry, x) {
        assert x !in unreachable;
      }
      return Ok(());
    }
    return Err(UnreachableNodes(unreachable));
  }

  /** Terminal nodes exist and have no successor, and every node can reach one. */
  ghost predicate Terminates(g: Graph, nodes: NodeMap) {
    && g.Keys == nodes.Keys
    && (exists x :: x in g && IsTerminal(nodes[x].kind))
    && (forall x :: x in g && IsTerminal(nodes[x].kind) ==> g[x] == {})
    && forall x {:trigger CanTerminate(g, nodes, x)} :: x in g ==> CanTerminate(g, nodes, x)
  }

  ghost predicate CanTerminate(g: Graph, nodes: NodeMap, x: Id) {
    exists t :: t in nodes && IsTerminal(nodes[t].kind) && Reachable(g, x, t)
  }

  ghost predicate TerminalList(nodes: NodeMap, order: seq<Id>) {
    forall x :: x in order <==> x in nodes && IsTerminal(nodes[x].kind)
  }

  method FirstTerminalWithSuccessor(g: Graph, order: seq<Id>) returns (found: Option<Id>)
    requires forall x :: x in order ==> x in g
    ensures found.None? <==> forall x :: x in order ==> g[x] == {}
  {
    for i := 0 to |order|
      invariant forall k :: 0 <= k < i ==> g[order[k]] == {}
    {
      if g[order[i]] != {} {
        return Some(order[i]);
      }
    }
    return None;
  }

  ghost predicate ReachesAny(g: Graph, x: Id, order: seq<Id>) {
    exists t :: t in order && Reachable(g, x, t)
  }

  /** The nodes from which some listed node can be reached. */
  method ReachingAny(g: Graph, order: seq<Id>) returns (all: set<Id>)
    requires Closed(g) && forall x :: x in order ==> x in g
    ensures forall x {:trigger ReachesAny(g, x, order)} :: x in all <==> ReachesAny(g, x, order)
  {
    var reverse := Reverse(g);
    all := {};
    for i := 0 to |order|
      invariant forall x {:trigger ReachesAny(g, x, order[..i])} :: x in all <==> ReachesAny(g, x, order[..i])
    {
      var reached := ReachableFrom(reverse, order[i]);
      assert order[..i + 1] == order[..i] + [order[i]];
      forall x {:trigger ReachesAny(g, x, order[..i + 1])}
        ensures x in all + reached <==> ReachesAny(g, x, order[..i + 1])
      {
        ReverseReach(g, reverse, x, order[i]);
        assert x in all <==> ReachesAny(g, x, order[..i]);
      }
      all := all + reached;
    }
    assert order[..|order|] == order;
  }

  method ValidateTermination(g: Graph, nodes: NodeMap) returns (r: Result<()>)
    requires Closed(g) && g.Keys == nodes.Keys
    ensures r.Ok? <==> Terminates(g, nodes)
    ensures r.Err? ==> r.error.MissingTermination? || r.error.TerminalHasOutgoingEdge? || r.error.NoTerminationPath?
  {
    var order := Ascending(set x | x in nodes && IsTerminal(nodes[x].kind));
    assert TerminalList(nodes, order);
    if order == [] {
      return Err(MissingTermination);
    }
    assert order[0] in order;
    var offender := FirstTerminalWithSuccessor(g, order);
    if offender.Some? {
      return Err(TerminalHasOutgoingEdge(offender.value));
    }
    var canTerminate := ReachingAny(g, order);
    TerminationDecided(g, nodes, order, canTerminate);
    var trapped := nodes.Keys - canTerminate;
    if trapped != {} {
      var x :| x in trapped;
      return Err(NoTerminationPath(trapped));
    }
    forall x | x in nodes ensures x in canTerminate {
      assert x !in trapped;
    }
    return Ok(());
  }

  lemma TerminationDecided(g: Graph, nodes: NodeMap, order: seq<Id>, all: set<Id>)
    requires g.Keys == nodes.Keys && TerminalList(nodes, order) && order != []
    requires forall x :: x in order ==> g[x] == {}
    requires forall x {:trigger ReachesAny(g, x, order)} :: x in all <==> ReachesAny(g, x, order)
    ensures Terminates(g, nodes) <==> nodes.Keys <= all
  {
    assert order[0] in order;
    forall x {:trigger CanTerminate(g, nodes, x)} | x in g
      ensures x in all <==> CanTerminate(g, nodes, x)
    {
      assert x in all <==> ReachesAny(g, x, order);
      if t :| t in nodes && IsTerminal(nodes[t].kind) && Reachable(g, x, t) {
        assert t in order;
      }
    }
    if Terminates(g, nodes) {
      forall x | x in nodes ensures x in all {
        assert CanTerminate(g, nodes, x);
      }
    }
  }

  /** In a graph that passed both checks, every node lies on a walk from the entry to a terminal. */
  lemma EveryNodeIsUseful(g: Graph, nodes: NodeMap, entry: Id, x: Id) returns (p: seq<Id>)
    requires AllReachable(g, entry) && Terminates(g, nodes) && x in g
    ensures IsWalk(g, p) && p[0] == entry && x in p
    ensures p[|p| - 1] in nodes && IsTerminal(nodes[p[|p| - 1]].kind)
  {
    var a :| WalkFromTo(g, a, entry, x);
    assert CanTerminate(g, nodes, x);
    var t :| t in nodes && IsTerminal(nodes[t].kind) && Reachable(g, x, t);
    var b :| WalkFromTo(g, b, x, t);
    WalkConcat(g, a, b);
    p := a + b[1..];
    assert p[|a| - 1] == x;
  }
}
