/** Definitions the compiler accepts although their entry lies inside a parallel branch, so that an
    execution is in a branch without having passed its parallel node. */
module GraphEntryInside {
  import opened Ordered
  import opened Digraph
  import opened GraphModel
  import opened GraphConditions
  import opened GraphCycles
  import opened GraphContracts
  import opened GraphParallel
  import opened GraphRegions
  import opened GraphWrites
  import opened GraphOwnership
  import opened GraphCompiler
  import GraphGuarantees

  /** The six nodes: a parallel node, its two branches, their join, a loop node and the end. */
  datatype Cast = Cast(p: Id, x: Id, y: Id, j: Id, l: Id, d: Id)

  predicate Apart(c: Cast) {
    && c.p != c.x && c.p != c.y && c.p != c.j && c.p != c.l && c.p != c.d
    && c.x != c.y && c.x != c.j && c.x != c.l && c.x != c.d
    && c.y != c.j && c.y != c.l && c.y != c.d
    && c.j != c.l && c.j != c.d && c.l != c.d
  }

  function Step(id: Id, kind: NodeKind, configuration: Option<Configuration>, bound: Option<nat>): Node {
    Node(id, kind, configuration, bound, None, {}, {}, {})
  }

  function FanOutTo(j: Id): Configuration {
    ParallelBranch(2, 1, j, JoinPolicy.All, map[], false)
  }

  function FanInOf(x: Id, y: Id): Configuration {
    JoinResults({x, y}, {}, 2, FailFast, 1)
  }

  function StepNodes(c: Cast): seq<Node> {
    [Step(c.p, ParallelBranchKind, Some(FanOutTo(c.j)), None),
     Step(c.x, ConditionalBranch, None, None),
     Step(c.y, ConditionalBranch, None, None),
     Step(c.j, JoinResultsKind, Some(FanInOf(c.x, c.y)), None),
     Step(c.l, Loop, None, Some(1)),
     Step(c.d, CompleteTurn, None, None)]
  }

  function Branch(c: Cast, b: Id): EdgeDefinition {
    EdgeDefinition(c.p, b, Some(b), None)
  }

  function Plain(a: Id, b: Id): EdgeDefinition {
    EdgeDefinition(a, b, None, None)
  }

  function StepEdges(c: Cast): seq<EdgeDefinition> {
    [Branch(c, c.x), Branch(c, c.y), Plain(c.x, c.j), Plain(c.y, c.j), Plain(c.j, c.l), Plain(c.l, c.p), Plain(c.l,
      c.d)]
  }

  /** A loop that repeats a parallel node, entered inside its first branch. */
  function Looped(c: Cast): Definition {
    Definition(c.x, StepNodes(c), StepEdges(c), [])
  }

  function All(c: Cast): set<Id> {
    {c.p, c.x, c.y, c.j, c.l, c.d}
  }

  function Adjacent(c: Cast): Graph
    requires Apart(c)
  {
    map[c.p := {c.x, c.y}, c.x := {c.j}, c.y := {c.j}, c.j := {c.l}, c.l := {c.p, c.d}, c.d := {}]
  }

  /** Limits with room for one iteration, two branches and two join members. */
  predicate RoomFor(limits: CompilerLimits) {
    limits.maxLoopIterations >= 1 && limits.maxParallelism >= 2 && limits.maxConfigurationItems >= 2
  }

  // ---------------------------------------------------------------- the definition

  /** What the proofs need of the collected nodes. */
  ghost predicate Shape(c: Cast, nodes: NodeMap) {
    && nodes.Keys == All(c) && WellKeyed(nodes)
    && nodes[c.p] == Step(c.p, ParallelBranchKind, Some(FanOutTo(c.j)), None)
    && nodes[c.x].kind.ConditionalBranch? && nodes[c.y].kind.ConditionalBranch? && nodes[c.l].kind.Loop?
    && nodes[c.j].kind.JoinResultsKind? && nodes[c.j].configuration == Some(FanInOf(c.x, c.y))
    && nodes[c.d].kind.CompleteTurn?
    && forall z :: z in nodes ==> IdleNode(nodes[z])
  }

  /** A node without condition, scopes and variables. */
  predicate IdleNode(n: Node) {
    n.condition.None? && n.writeScopes == {} && n.readVariables == {} && n.writeVariables == {}
  }

  lemma ItsNodes(c: Cast)
    requires Apart(c)
    ensures UniqueIds(StepNodes(c)) && Ids(StepNodes(c)) == All(c) && Shape(c, NodesById(StepNodes(c)))
  {
    var ns := StepNodes(c);
    assert ns[0].id == c.p && ns[1].id == c.x && ns[2].id == c.y && ns[3].id == c.j && ns[4].id == c.l && ns[5].id
      == c.d;
    var nodes := NodesById(ns);
    assert forall i :: 0 <= i < |ns| ==> ns[i] in ns;
    assert nodes[c.p] == ns[0] && nodes[c.x] == ns[1] && nodes[c.y] == ns[2];
    assert nodes[c.j] == ns[3] && nodes[c.l] == ns[4] && nodes[c.d] == ns[5];
  }

  lemma ItsEdges(c: Cast, a: Id, b: Id)
    requires Apart(c)
    ensures HasEdge(StepEdges(c), a, b) <==> Edge(Adjacent(c), a, b)
  {
    var es := StepEdges(c);
    assert forall i :: 0 <= i < |es| ==> es[i] in es;
    assert es[0].to == c.x && es[1].to == c.y && es[2].to == c.j && es[3].to == c.j;
    assert es[4].to == c.l && es[5].to == c.p && es[6].to == c.d;
  }

  lemma EdgesAreValid(c: Cast)
    requires Apart(c)
    ensures ValidEdges(All(c), StepEdges(c))
  {
    var es := StepEdges(c);
    assert es[0].to == c.x && es[1].to == c.y && es[2].from == c.x && es[3].from == c.y;
    assert es[4].from == c.j && es[5].from == c.l && es[6].from == c.l;
  }

  lemma ItsSuccessors(c: Cast, a: Id)
    requires Apart(c) && a in All(c)
    ensures a in Adjacent(c) && GraphOf(All(c), StepEdges(c))[a] == Adjacent(c)[a]
  {
    var g, h := GraphOf(All(c), StepEdges(c)), Adjacent(c);
    forall b ensures b in g[a] <==> b in h[a] {
      ItsEdges(c, a, b);
      assert Edge(h, a, b) <==> b in h[a];
    }
  }

  lemma ItsGraph(c: Cast)
    requires Apart(c)
    ensures GraphOf(All(c), StepEdges(c)) == Adjacent(c)
  {
    var g, h := GraphOf(All(c), StepEdges(c)), Adjacent(c);
    forall a | a in All(c) ensures a in g && a in h && g[a] == h[a] {
      ItsSuccessors(c, a);
    }
    assert g.Keys == All(c) == h.Keys;
  }

  lemma ItIsWellBuilt(c: Cast)
    requires Apart(c)
    ensures WellBuilt(Looped(c))
  {
    ItsNodes(c);
    EdgesAreValid(c);
  }

  // ---------------------------------------------------------------- flow

  lemma EntryReaches(c: Cast, z: Id)
    requires Apart(c) && z in Adjacent(c)
    ensures Reachable(Adjacent(c), c.x, z)
  {
    var g := Adjacent(c);
    assert WalkFromTo(g, [c.x], c.x, c.x);
    assert WalkFromTo(g, [c.x, c.j], c.x, c.j);
    assert WalkFromTo(g, [c.x, c.j, c.l], c.x, c.l);
    assert WalkFromTo(g, [c.x, c.j, c.l, c.d], c.x, c.d);
    assert WalkFromTo(g, [c.x, c.j, c.l, c.p], c.x, c.p);
    assert WalkFromTo(g, [c.x, c.j, c.l, c.p, c.y], c.x, c.y);
  }

  lemma ReachesEnd(c: Cast, z: Id)
    requires Apart(c) && z in Adjacent(c)
    ensures Reachable(Adjacent(c), z, c.d)
  {
    var g := Adjacent(c);
    assert WalkFromTo(g, [c.d], c.d, c.d);
    assert WalkFromTo(g, [c.l, c.d], c.l, c.d);
    assert WalkFromTo(g, [c.j, c.l, c.d], c.j, c.d);
    assert WalkFromTo(g, [c.x, c.j, c.l, c.d], c.x, c.d);
    assert WalkFromTo(g, [c.y, c.j, c.l, c.d], c.y, c.d);
    assert WalkFromTo(g, [c.p, c.x, c.j, c.l, c.d], c.p, c.d);
  }

  lemma AllAreReachable(c: Cast)
    requires Apart(c)
    ensures AllReachable(Adjacent(c), c.x)
  {
    forall z | z in Adjacent(c) ensures Reachable(Adjacent(c), c.x, z) {
      EntryReaches(c, z);
    }
  }

  lemma OnlyEndIsTerminal(c: Cast, nodes: NodeMap, z: Id)
    requires Apart(c) && Shape(c, nodes) && z in nodes
    ensures IsTerminal(nodes[z].kind) <==> z == c.d
  {
    assert z == c.p || z == c.x || z == c.y || z == c.j || z == c.l || z == c.d;
  }

  lemma EndIsReached(c: Cast, nodes: NodeMap, z: Id)
    requires Apart(c) && Shape(c, nodes) && z in Adjacent(c)
    ensures CanTerminate(Adjacent(c), nodes, z)
  {
    ReachesEnd(c, z);
    OnlyEndIsTerminal(c, nodes, c.d);
  }

  lemma ItTerminates(c: Cast, nodes: NodeMap)
    requires Apart(c) && Shape(c, nodes)
    ensures Terminates(Adjacent(c), nodes)
  {
    var g := Adjacent(c);
    assert g.Keys == All(c);
    assert g[c.d] == {};
    forall z | z in g ensures IsTerminal(nodes[z].kind) <==> z == c.d {
      OnlyEndIsTerminal(c, nodes, z);
    }
    assert c.d in g;
    forall z | z in g ensures CanTerminate(g, nodes, z) {
      EndIsReached(c, nodes, z);
    }
  }

  lemma ItsCyclesAreLooped(c: Cast, nodes: NodeMap)
    requires Apart(c) && Shape(c, nodes)
    ensures CyclesAreLooped(Adjacent(c), LoopNodes(nodes))
  {
    var g, order := Adjacent(c), [c.p, c.x, c.y, c.j, c.d];
    assert LoopNodes(nodes) == {c.l};
    var h := LoopFree(g, {c.l});
    assert Elements(order) == h.Keys;
    forall i, k | 0 <= i < |order| && 0 <= k < |order| && Edge(h, order[i], order[k]) ensures i < k {
      assert Edge(g, order[i], order[k]);
    }
    SortedMeansAcyclic(h, order);
    LoopedIffLoopFreeAcyclic(g, {c.l});
  }

  // ---------------------------------------------------------------- the parallel node

  lemma BranchIsItsHead(c: Cast, b: Id)
    requires Apart(c) && (b == c.x || b == c.y)
    ensures Region(Adjacent(c), b, c.j) == {b}
  {
    var w := Without(Adjacent(c), c.j);
    assert w[b] == {};
    assert WalkFromTo(w, [b], b, b);
    forall z | z in Region(Adjacent(c), b, c.j) ensures z == b {
      var q :| WalkFromTo(w, q, b, z);
      ClosedContainsWalk(w, {b}, q);
    }
  }

  lemma ItsFanOut(c: Cast)
    requires Apart(c)
    ensures FanOut(StepEdges(c), c.p) == {Branch(c, c.x), Branch(c, c.y)} && Branch(c, c.x) != Branch(c, c.y)
  {
    var es := StepEdges(c);
    assert es[0] in es && es[1] in es;
    assert Branch(c, c.x).to != Branch(c, c.y).to;
  }

  lemma FanOutAgrees(c: Cast, nodes: NodeMap)
    requires Apart(c) && Shape(c, nodes)
    ensures FanOutFits(nodes, c.p, {Branch(c, c.x), Branch(c, c.y)})
  {
    var fan := {Branch(c, c.x), Branch(c, c.y)};
    assert Branch(c, c.x).to != Branch(c, c.y).to;
    assert |fan| == 2 && |{c.x, c.y}| == 2;
    assert References(fan) == {c.x, c.y} by {
      assert Branch(c, c.x) in fan && Branch(c, c.y) in fan;
    }
  }

  lemma BranchesExit(c: Cast, nodes: NodeMap, b: Id)
    requires Apart(c) && Shape(c, nodes) && (b == c.x || b == c.y)
    ensures RegionExits(Adjacent(c), nodes, b, c.j)
  {
    BranchIsItsHead(c, b);
    assert Adjacent(c)[b] == {c.j};
  }

  /** Only the parallel node leads into a branch. */
  lemma BranchesAreEnteredByP(c: Cast, b: Id, s: Id)
    requires Apart(c) && (b == c.x || b == c.y) && Edge(Adjacent(c), s, b)
    ensures s == c.p
  {
    assert s == c.p || s == c.x || s == c.y || s == c.j || s == c.l || s == c.d;
  }

  lemma JoinIsEnteredByBranches(c: Cast, s: Id)
    requires Apart(c) && Edge(Adjacent(c), s, c.j)
    ensures s == c.x || s == c.y
  {
    assert s == c.p || s == c.x || s == c.y || s == c.j || s == c.l || s == c.d;
  }

  lemma ItsRegionsAreGood(c: Cast, fan: set<EdgeDefinition>)
    requires Apart(c) && fan == {Branch(c, c.x), Branch(c, c.y)}
    ensures RegionsDisjoint(Adjacent(c), fan, c.j) && RegionsEnteredAtHead(Adjacent(c), c.p, fan, c.j)
    ensures JoinEnteredFromRegions(Adjacent(c), fan, c.j)
  {
    var g := Adjacent(c);
    forall e | e in fan ensures Region(g, e.to, c.j) == {e.to} {
      BranchIsItsHead(c, e.to);
    }
    forall e, m, s | e in fan && m in Region(g, e.to, c.j) && Edge(g, s, m)
      ensures (m == e.to && s == c.p) || s in Region(g, e.to, c.j)
    {
      BranchesAreEnteredByP(c, m, s);
    }
    forall s | Edge(g, s, c.j) ensures InSomeRegion(g, fan, c.j, s) {
      JoinIsEnteredByBranches(c, s);
      assert Branch(c, s) in fan && s in Region(g, Branch(c, s).to, c.j);
    }
  }

  lemma ItsParallelIsGood(c: Cast, nodes: NodeMap)
    requires Apart(c) && Shape(c, nodes)
    ensures GoodParallel(Adjacent(c), nodes, c.p, {Branch(c, c.x), Branch(c, c.y)})
  {
    var fan := {Branch(c, c.x), Branch(c, c.y)};
    FanOutAgrees(c, nodes);
    assert JoinOf(nodes, c.p) == c.j;
    ItsRegionsAreGood(c, fan);
    forall e | e in fan ensures RegionExits(Adjacent(c), nodes, e.to, c.j) {
      BranchesExit(c, nodes, e.to);
    }
  }

  lemma ItsWritesAreGood(c: Cast, nodes: NodeMap)
    requires Apart(c) && Shape(c, nodes)
    ensures ParallelNodes(nodes) == {c.p}
    ensures GoodParallelWrites(Adjacent(c), nodes, StepEdges(c), map[], c.p)
  {
    ItsFanOut(c);
    ItsParallelIsGood(c, nodes);
    assert forall b :: BranchScopes(Adjacent(c), nodes, b, c.j) == {};
  }

  lemma ItDeclaresWell(language: Language, c: Cast, nodes: NodeMap)
    requires Apart(c) && Shape(c, nodes)
    ensures VariablesDeclared(language, StepNodes(c), StepEdges(c), nodes, map[])
  {
    assert forall e :: e in StepEdges(c) ==> e.condition.None?;
    assert forall z, v :: !Writes(nodes, z, v);
  }

  /** Every such definition is accepted, and its entry lies inside a branch of its parallel node; so
      an execution is inside that branch without having entered it. */
  lemma EntryInsideIsAccepted(language: Language, c: Cast, limits: CompilerLimits)
    requires Apart(c) && RoomFor(limits)
    ensures Accepted(language, Looped(c), limits)
    ensures var nodes := NodesById(StepNodes(c));
      && c.p in ParallelNodes(nodes) && HasParallelConfiguration(nodes, c.p)
      && !GraphGuarantees.EntryOutside(Looped(c), c.p) && !GraphGuarantees.ExecutionsEnterProperly(Looped(c), c.p)
  {
    ItIsAccepted(language, c, limits);
    ItsGraph(c);
    ItsNodes(c);
    ItsFanOut(c);
    BranchIsItsHead(c, c.x);
    ItsWritesAreGood(c, NodesById(StepNodes(c)));
    assert Branch(c, c.x) in FanOut(StepEdges(c), c.p) && c.x in Region(Adjacent(c), Branch(c, c.x).to, c.j);
    GraphGuarantees.SingleEntryIffEntryOutside(language, Looped(c), limits, c.p);
  }

  lemma ItsContractsAreGood(language: Language, c: Cast, nodes: NodeMap, limits: CompilerLimits)
    requires Apart(c) && RoomFor(limits) && Shape(c, nodes)
    ensures GoodContracts(language, StepNodes(c), StepEdges(c), nodes, limits)
  {
    assert |{c.x, c.y}| == 2;
    assert forall e :: e in StepEdges(c) ==> e.condition.None?;
    assert forall n :: n in StepNodes(c) ==> n.condition.None?;
    assert ValidParallel(FanOutTo(c.j), nodes, limits) && ValidJoin(FanInOf(c.x, c.y), limits);
  }

  lemma FlowsFrom(language: Language, d: Definition, limits: CompilerLimits, nodes: NodeMap, g: Graph)
    requires WellBuilt(d) && nodes == NodesById(d.nodes) && g == GraphOf(Ids(d.nodes), d.edges)
    requires AllReachable(g, d.entry) && Terminates(g, nodes)
    requires GoodContracts(language, d.nodes, d.edges, nodes, limits)
    ensures FlowsWell(language, d, limits)
  {
  }

  lemma WritesFrom(d: Definition, nodes: NodeMap, g: Graph)
    requires WellBuilt(d) && d.variables == []
    requires nodes == NodesById(d.nodes) && g == GraphOf(Ids(d.nodes), d.edges)
    requires forall p :: p in ParallelNodes(nodes) ==> GoodParallelWrites(g, nodes, d.edges, map[], p)
    ensures WritesWell(d)
  {
    assert VariablesByName(d.variables) == map[];
  }

  lemma DeclaresFrom(language: Language, d: Definition, nodes: NodeMap)
    requires WellBuilt(d) && d.variables == [] && nodes == NodesById(d.nodes)
    requires VariablesDeclared(language, d.nodes, d.edges, nodes, map[])
    ensures DeclaresWell(language, d)
  {
    assert VariablesByName(d.variables) == map[];
  }

  lemma ItFlowsWell(language: Language, c: Cast, limits: CompilerLimits)
    requires Apart(c) && RoomFor(limits) && WellBuilt(Looped(c))
    ensures FlowsWell(language, Looped(c), limits)
  {
    ItsGraph(c);
    ItsNodes(c);
    var nodes := NodesById(StepNodes(c));
    AllAreReachable(c);
    ItTerminates(c, nodes);
    ItsContractsAreGood(language, c, nodes, limits);
    FlowsFrom(language, Looped(c), limits, nodes, Adjacent(c));
  }

  lemma ItLoopsWell(c: Cast)
    requires Apart(c) && WellBuilt(Looped(c))
    ensures LoopsWell(Looped(c))
  {
    ItsGraph(c);
    ItsNodes(c);
    ItsCyclesAreLooped(c, NodesById(StepNodes(c)));
  }

  lemma AllParallelsAreGood(c: Cast, nodes: NodeMap, g: Graph, es: seq<EdgeDefinition>)
    requires Apart(c) && Shape(c, nodes) && g == Adjacent(c) && es == StepEdges(c)
    ensures forall p :: p in ParallelNodes(nodes) ==> GoodParallelWrites(g, nodes, es, map[], p)
  {
    ItsWritesAreGood(c, nodes);
  }

  lemma ItWritesWell(c: Cast)
    requires Apart(c) && WellBuilt(Looped(c))
    ensures WritesWell(Looped(c))
  {
    ItsGraph(c);
    ItsNodes(c);
    var nodes := NodesById(StepNodes(c));
    AllParallelsAreGood(c, nodes, Adjacent(c), Looped(c).edges);
    WritesFrom(Looped(c), nodes, Adjacent(c));
  }

  lemma ItIsAccepted(language: Language, c: Cast, limits: CompilerLimits)
    requires Apart(c) && RoomFor(limits)
    ensures Accepted(language, Looped(c), limits)
  {
    ItIsWellBuilt(c);
    ItFlowsWell(language, c, limits);
    ItLoopsWell(c);
    ItWritesWell(c);
    ItsNodes(c);
    ItDeclaresWell(language, c, NodesById(StepNodes(c)));
    DeclaresFrom(language, Looped(c), NodesById(StepNodes(c)));
  }

  /** Six names. */
  const NAMES: Cast := Cast(Id("p"), Id("x"), Id("y"), Id("j"), Id("l"), Id("d"))

  lemma NamesAreApart()
    ensures Apart(NAMES)
  {
    assert NAMES.p.text[0] == 'p' && NAMES.x.text[0] == 'x' && NAMES.y.text[0] == 'y';
    assert NAMES.j.text[0] == 'j' && NAMES.l.text[0] == 'l' && NAMES.d.text[0] == 'd';
  }

  /** One such definition, by name: it is accepted, and its execution that starts at the entry is in a
      branch it has not entered. */
  lemma NamedEntryInsideIsAccepted(language: Language, limits: CompilerLimits)
    requires RoomFor(limits)
    ensures Accepted(language, Looped(NAMES), limits)
    ensures HasParallelConfiguration(NodesById(StepNodes(NAMES)), NAMES.p)
            && !GraphGuarantees.ExecutionsEnterProperly(Looped(NAMES), NAMES.p)
  {
    NamesAreApart();
    EntryInsideIsAccepted(language, NAMES, limits);
  }
}
