/** The compiler as a whole: which definitions it accepts, and the sorted executable it emits. */
module GraphCompiler {
  import opened Sorting
  import opened Ordered
  import opened Digraph
  import opened GraphModel
  import opened GraphConditions
  import opened GraphCycles
  import opened GraphContracts
  import opened GraphParallel
  import opened GraphRegions
  import opened GraphWrites
  import opened GraphOwnership

  /** A node as it executes: its condition parsed. */
  datatype CompiledNode = CompiledNode(
    id: Id, kind: NodeKind, configuration: Option<Configuration>, maxIterations: Option<nat>,
    condition: Option<Expr>, writeScopes: set<Id>, readVariables: set<Id>, writeVariables: set<Id>)

  /** An edge between identifiers, its condition parsed. */
  datatype CompiledEdge = CompiledEdge(from: Id, to: Id, reference: Option<Id>, condition: Option<Expr>)

  datatype ExecutableNode = ExecutableNode(index: nat, node: CompiledNode)

  datatype ExecutableEdge = ExecutableEdge(from: nat, to: nat, reference: Option<Id>, condition: Option<Expr>)

  datatype Executable = Executable(
    entryIndex: nat, nodes: seq<ExecutableNode>, edges: seq<ExecutableEdge>, variables: seq<Variable>)

  // ---------------------------------------------------------------- the accepted definitions

  function Ids(ns: seq<Node>): set<Id> {
    set n | n in ns :: n.id
  }

  function NodesById(ns: seq<Node>): (nodes: NodeMap)
    requires UniqueIds(ns)
    ensures Collects(ns, nodes) && nodes.Keys == Ids(ns)
  {
    map n | n in ns :: n.id := n
  }

  function VariablesByName(vs: seq<Variable>): (variables: VariableMap)
    requires UniqueNames(vs)
    ensures CollectsVariables(vs, variables)
  {
    map v | v in vs :: v.name := v
  }

  ghost function GraphOf(ids: set<Id>, es: seq<EdgeDefinition>): Graph {
    map a | a in ids :: set b | b in ids && HasEdge(es, a, b)
  }

  lemma AdjacencyIsGraphOf(ids: set<Id>, es: seq<EdgeDefinition>, g: Graph)
    requires ValidEdges(ids, es) && IsAdjacency(ids, es, g)
    ensures g == GraphOf(ids, es)
  {
    var h := GraphOf(ids, es);
    forall a | a in ids ensures g[a] == h[a] {
      forall b ensures b in g[a] <==> b in h[a] {
        assert b in g[a] <==> Edge(g, a, b);
        if HasEdge(es, a, b) {
          var e :| e in es && e.from == a && e.to == b;
        }
      }
    }
  }

  lemma GraphOfIsAdjacency(ids: set<Id>, es: seq<EdgeDefinition>)
    requires ValidEdges(ids, es)
    ensures IsAdjacency(ids, es, GraphOf(ids, es)) && Closed(GraphOf(ids, es))
  {
    var h := GraphOf(ids, es);
    forall a, b ensures Edge(h, a, b) <==> a in ids && HasEdge(es, a, b) {
      if HasEdge(es, a, b) {
        var e :| e in es && e.from == a && e.to == b;
      }
    }
  }

  ghost predicate WellBuilt(d: Definition) {
    UniqueIds(d.nodes) && UniqueNames(d.variables) && ValidEdges(Ids(d.nodes), d.edges)
  }

  /** Reachability, termination, loop bounds, parallel and join configurations, and conditions that parse. */
  ghost predicate FlowsWell(l: Language, d: Definition, limits: CompilerLimits)
    requires WellBuilt(d)
  {
    var nodes, g := NodesById(d.nodes), GraphOf(Ids(d.nodes), d.edges);
    && AllReachable(g, d.entry) && Terminates(g, nodes)
    && GoodContracts(l, d.nodes, d.edges, nodes, limits)
  }

  ghost predicate LoopsWell(d: Definition)
    requires WellBuilt(d)
  {
    CyclesAreLooped(GraphOf(Ids(d.nodes), d.edges), LoopNodes(NodesById(d.nodes)))
  }

  /** Variable declarations, reads, writers and conditions. */
  ghost predicate DeclaresWell(l: Language, d: Definition)
    requires WellBuilt(d)
  {
    VariablesDeclared(l, d.nodes, d.edges, NodesById(d.nodes), VariablesByName(d.variables))
  }

  /** Parallel regions, parallel writes and merge ownership. */
  ghost predicate WritesWell(d: Definition)
    requires WellBuilt(d)
  {
    var nodes, variables, g := NodesById(d.nodes), VariablesByName(d.variables), GraphOf(Ids(d.nodes), d.edges);
    && (forall p :: p in ParallelNodes(nodes) ==> GoodParallelWrites(g, nodes, d.edges, variables, p))
    && forall v :: v in variables ==> Owned(g, nodes, d.edges, variables[v])
  }

  /** What the compiler accepts. */
  ghost predicate Accepted(l: Language, d: Definition, limits: CompilerLimits)
  {
    WellBuilt(d) && FlowsWell(l, d, limits) && DeclaresWell(l, d) && LoopsWell(d) && WritesWell(d)
  }

  // ---------------------------------------------------------------- sorting

  predicate OptionLess(a: Option<Id>, b: Option<Id>) {
    b.Some? && (a.None? || Less(a.value, b.value))
  }

  /** Source, destination, label, condition. */
  predicate EdgeLess(a: EdgeDefinition, b: EdgeDefinition) {
    || Less(a.from, b.from)
    || (a.from == b.from
        && (|| Less(a.to, b.to)
            || (a.to == b.to
                && (OptionLess(a.reference, b.reference)
                    || (a.reference == b.reference && OptionLess(a.condition, b.condition))))))
  }

  predicate NodeLess(a: Node, b: Node) {
    Less(a.id, b.id)
  }

  predicate VariableLess(a: Variable, b: Variable) {
    Less(a.name, b.name)
  }

  lemma EdgeOrderIsTotal()
    ensures forall a, b :: EdgeLess(a, b) || a == b || EdgeLess(b, a)
    ensures forall a, b :: !(EdgeLess(a, b) && EdgeLess(b, a))
    ensures forall a, b, c :: EdgeLess(a, b) && EdgeLess(b, c) ==> EdgeLess(a, c)
  {
    LessIsTotal();
  }

  lemma ComparisonsAreKeyOrders()
    ensures KeyOrder(NodeLess) && KeyOrder(EdgeLess) && KeyOrder(VariableLess)
  {
    LessIsTotal();
    EdgeOrderIsTotal();
  }

  /** The three lists of a well-built definition are separated by their comparisons. */
  lemma ListsAreSeparated(d: Definition)
    requires WellBuilt(d)
    ensures Separates(d.nodes, NodeLess) && Separates(d.edges, EdgeLess) && Separates(d.variables, VariableLess)
  {
    LessIsTotal();
    EdgeOrderIsTotal();
  }

  // ---------------------------------------------------------------- emission

  /** The condition a text denotes; every text parses. */
  function Denoted(l: Language, c: Option<Id>): Option<Expr>
  {
    match Read(l, c)
    case Condition(e) => Some(e)
    case _ => None
  }

  function CompileNode(l: Language, n: Node): CompiledNode
  {
    CompiledNode(n.id, n.kind, n.configuration, n.maxIterations, Denoted(l, n.condition),
                 n.writeScopes, n.readVariables, n.writeVariables)
  }

  function CompileEdge(l: Language, e: EdgeDefinition): CompiledEdge
  {
    CompiledEdge(e.from, e.to, e.reference, Denoted(l, e.condition))
  }

  function IndexOf(ns: seq<Node>, x: Id): (i: nat)
    requires Names(ns, x)
    ensures i < |ns| && ns[i].id == x
  {
    if ns[0].id == x then 0 else 1 + IndexOf(ns[1..], x)
  }

  function EmitNodes(l: Language, ns: seq<Node>): (r: seq<ExecutableNode>)
    ensures |r| == |ns| && forall i :: 0 <= i < |r| ==> r[i] == ExecutableNode(i, CompileNode(l, ns[i]))
  {
    seq(|ns|, i requires 0 <= i < |ns| => ExecutableNode(i, CompileNode(l, ns[i])))
  }

  predicate Names(ns: seq<Node>, x: Id) {
    exists n :: n in ns && n.id == x
  }

  function EmitEdge(l: Language, ns: seq<Node>, e: EdgeDefinition): ExecutableEdge
    requires Names(ns, e.from) && Names(ns, e.to)
  {
    ExecutableEdge(IndexOf(ns, e.from), IndexOf(ns, e.to), e.reference, Denoted(l, e.condition))
  }

  function EmitEdges(l: Language, ns: seq<Node>, es: seq<EdgeDefinition>): (r: seq<ExecutableEdge>)
    requires forall e :: e in es ==> Names(ns, e.from) && Names(ns, e.to)
    ensures |r| == |es| && forall i :: 0 <= i < |r| ==> es[i] in es && r[i] == EmitEdge(l, ns, es[i])
  {
    assert forall i :: 0 <= i < |es| ==> es[i] in es;
    seq(|es|, i requires 0 <= i < |es| => EmitEdge(l, ns, es[i]))
  }

  /** The executable of sorted lists. */
  function EmitSorted(l: Language, entry: Id, ns: seq<Node>, es: seq<EdgeDefinition>, vs: seq<Variable>): Executable
    requires Names(ns, entry) && forall e :: e in es ==> Names(ns, e.from) && Names(ns, e.to)
  {
    Executable(IndexOf(ns, entry), EmitNodes(l, ns), EmitEdges(l, ns, es), vs)
  }

  ghost predicate Emits(d: Definition, ns: seq<Node>, es: seq<EdgeDefinition>) {
    Names(ns, d.entry) && forall e :: e in es ==> Names(ns, e.from) && Names(ns, e.to)
  }

  lemma SortedNames(d: Definition)
    requires WellBuilt(d) && d.entry in Ids(d.nodes)
    ensures Emits(d, Sort(d.nodes, NodeLess), Sort(d.edges, EdgeLess))
  {
    var ns, es := Sort(d.nodes, NodeLess), Sort(d.edges, EdgeLess);
    SortPermutes(d.nodes, NodeLess);
    SortPermutes(d.edges, EdgeLess);
    SameElements(d.nodes, ns);
    SameElements(d.edges, es);
    forall x | x in Ids(d.nodes) ensures Names(ns, x) {
      var n :| n in d.nodes && n.id == x;
      assert n in ns;
    }
  }

  /** Nodes sorted by identifier and numbered, edges sorted and renumbered, variables by name. */
  function Emit(l: Language, d: Definition): Executable
    requires WellBuilt(d) && d.entry in Ids(d.nodes)
  {
    SortedNames(d);
    EmitSorted(l, d.entry, Sort(d.nodes, NodeLess), Sort(d.edges, EdgeLess), Sort(d.variables, VariableLess))
  }

  /** The index of every identifier in a sorted node list. */
  method NumberNodes(ns: seq<Node>) returns (indices: map<Id, nat>)
    requires StrictlyAscends(ns, NodeLess)
    ensures forall x :: x in indices <==> Names(ns, x)
    ensures forall x :: Names(ns, x) ==> indices[x] == IndexOf(ns, x)
  {
    indices := map[];
    for i := 0 to |ns|
      invariant forall x :: x in indices <==> exists k :: 0 <= k < i && ns[k].id == x
      invariant forall x :: x in indices ==> indices[x] < i && ns[indices[x]].id == x
    {
      indices := indices[ns[i].id := i];
    }
    forall x | x in indices ensures Names(ns, x) && indices[x] == IndexOf(ns, x) {
      assert ns[indices[x]] in ns;
      OnlyIndex(ns, indices[x], IndexOf(ns, x));
    }
    forall x | Names(ns, x) ensures x in indices {
      var k :| 0 <= k < |ns| && ns[k].id == x;
    }
  }

  lemma OnlyIndex(ns: seq<Node>, i: nat, j: nat)
    requires StrictlyAscends(ns, NodeLess) && i < |ns| && j < |ns| && ns[i].id == ns[j].id
    ensures i == j
  {
    LessIsTotal();
    assert i < j ==> NodeLess(ns[i], ns[j]);
    assert j < i ==> NodeLess(ns[j], ns[i]);
  }

  method TranslateNodes(l: Language, ns: seq<Node>) returns (r: Result<seq<ExecutableNode>>)
    requires forall n :: n in ns ==> !Read(l, n.condition).Malformed?
    ensures r == Ok(EmitNodes(l, ns))
  {
    var nodes: seq<ExecutableNode> := [];
    for i := 0 to |ns|
      invariant |nodes| == i && forall k :: 0 <= k < i ==> nodes[k] == EmitNodes(l, ns)[k]
    {
      var n := ns[i];
      assert n in ns;
      var condition := ParseCondition(l, n.id, n.condition);
      nodes := nodes + [ExecutableNode(i, CompiledNode(n.id, n.kind, n.configuration, n.maxIterations, condition.value,
                                                       n.writeScopes, n.readVariables, n.writeVariables))];
    }
    assert nodes == EmitNodes(l, ns);
    return Ok(nodes);
  }

  method TranslateEdges(l: Language, ns: seq<Node>, es: seq<EdgeDefinition>, indices: map<Id, nat>)
    returns (r: Result<seq<ExecutableEdge>>)
    requires forall e :: e in es ==> Names(ns, e.from) && Names(ns, e.to) && !Read(l, e.condition).Malformed?
    requires forall x :: Names(ns, x) ==> x in indices && indices[x] == IndexOf(ns, x)
    ensures r == Ok(EmitEdges(l, ns, es))
  {
    var edges: seq<ExecutableEdge> := [];
    for i := 0 to |es|
      invariant |edges| == i && forall k :: 0 <= k < i ==> edges[k] == EmitEdges(l, ns, es)[k]
    {
      var e := es[i];
      assert e in es;
      var condition := ParseCondition(l, e.from, e.condition);
      edges := edges + [ExecutableEdge(indices[e.from], indices[e.to], e.reference, condition.value)];
    }
    assert edges == EmitEdges(l, ns, es);
    return Ok(edges);
  }

  /** Emission as the compiler performs it: sort, number, and translate list by list. */
  method EmitGraph(l: Language, d: Definition) returns (r: Result<Executable>)
    requires WellBuilt(d) && d.entry in Ids(d.nodes) && AllParse(l, d.nodes, d.edges)
    ensures r == Ok(Emit(l, d))
  {
    var ns, es := Sort(d.nodes, NodeLess), Sort(d.edges, EdgeLess);
    SortedLists(d);
    SortedNames(d);
    var indices := NumberNodes(ns);
    var nodes := TranslateNodes(l, ns);
    var edges := TranslateEdges(l, ns, es, indices);
    return Ok(Executable(indices[d.entry], nodes.value, edges.value, Sort(d.variables, VariableLess)));
  }

  lemma SortedLists(d: Definition)
    requires WellBuilt(d)
    ensures StrictlyAscends(Sort(d.nodes, NodeLess), NodeLess)
    ensures multiset(Sort(d.nodes, NodeLess)) == multiset(d.nodes)
    ensures multiset(Sort(d.edges, EdgeLess)) == multiset(d.edges)
    ensures multiset(Sort(d.variables, VariableLess)) == multiset(d.variables)
    ensures forall n :: n in Sort(d.nodes, NodeLess) <==> n in d.nodes
    ensures forall e :: e in Sort(d.edges, EdgeLess) <==> e in d.edges
  {
    ComparisonsAreKeyOrders();
    ListsAreSeparated(d);
    SortIsStrict(d.nodes, NodeLess);
    SortIsStrict(d.edges, EdgeLess);
    SortIsStrict(d.variables, VariableLess);
    SameElements(d.nodes, Sort(d.nodes, NodeLess));
    SameElements(d.edges, Sort(d.edges, EdgeLess));
  }

  // ---------------------------------------------------------------- reading back

  predicate EdgesInside(x: Executable) {
    forall e :: e in x.edges ==> e.from < |x.nodes| && e.to < |x.nodes|
  }

  /** Node `i` carries index `i`, identifiers ascend, and every index is in range. */
  predicate Numbered(x: Executable) {
    && (forall i :: 0 <= i < |x.nodes| ==> x.nodes[i].index == i)
    && (forall i, j :: 0 <= i < j < |x.nodes| ==> Less(x.nodes[i].node.id, x.nodes[j].node.id))
    && x.entryIndex < |x.nodes| && EdgesInside(x)
  }

  /** A definition with its conditions parsed. */
  datatype Compiled = Compiled(entry: Id, nodes: seq<CompiledNode>, edges: seq<CompiledEdge>, variables: seq<Variable>)

  function NodeCompiler(l: Language): Node -> CompiledNode {
    n => CompileNode(l, n)
  }

  function EdgeCompiler(l: Language): EdgeDefinition -> CompiledEdge {
    e => CompileEdge(l, e)
  }

  /** The definition in its own order, with its conditions parsed. */
  function Source(l: Language, d: Definition): Compiled
  {
    Compiled(d.entry, Map(d.nodes, NodeCompiler(l)), Map(d.edges, EdgeCompiler(l)), d.variables)
  }

  function DecompileEdge(x: Executable, e: ExecutableEdge): CompiledEdge
    requires e.from < |x.nodes| && e.to < |x.nodes|
  {
    CompiledEdge(x.nodes[e.from].node.id, x.nodes[e.to].node.id, e.reference, e.condition)
  }

  /** Reads the definition back from an executable. */
  function Decompile(x: Executable): Compiled
    requires Numbered(x)
  {
    assert forall i :: 0 <= i < |x.edges| ==> x.edges[i] in x.edges;
    Compiled(
      x.nodes[x.entryIndex].node.id,
      seq(|x.nodes|, i requires 0 <= i < |x.nodes| => x.nodes[i].node),
      seq(|x.edges|, i requires 0 <= i < |x.edges| => DecompileEdge(x, x.edges[i])),
      x.variables)
  }

  // ---------------------------------------------------------------- the compiler

  method CheckFlow(l: Language, d: Definition, limits: CompilerLimits, nodes: NodeMap, g: Graph) returns (r: Result<()>)
    requires WellBuilt(d) && nodes == NodesById(d.nodes) && g == GraphOf(Ids(d.nodes), d.edges) && Closed(g)
    ensures r.Ok? <==> FlowsWell(l, d, limits)
    ensures r.Err? ==> !r.error.ConflictingParallelVariableWrites?
  {
    var reach := ValidateEntryAndReachability(g, d.entry);
    if reach.Err? {
      return reach;
    }
    var ending := ValidateTermination(g, nodes);
    if ending.Err? {
      return ending;
    }
    r := ValidateContracts(l, d.nodes, d.edges, nodes, limits);
  }

  method CheckParallels(d: Definition, nodes: NodeMap, variables: VariableMap, g: Graph) returns (r: Result<()>)
    requires Validated(g, nodes) && ValidEdges(nodes.Keys, d.edges) && WritersDeclared(nodes, variables)
    ensures r.Ok? <==> forall p :: p in ParallelNodes(nodes) ==> GoodParallelWrites(g, nodes, d.edges, variables, p)
    ensures r.Err? ==> !r.error.ConflictingParallelVariableWrites?
  {
    var reverse := Reverse(g);
    var ps := Ascending(ParallelNodes(nodes));
    for i := 0 to |ps|
      invariant forall k :: 0 <= k < i ==> GoodParallelWrites(g, nodes, d.edges, variables, ps[k])
    {
      assert ps[i] in ps;
      var one := ValidateParallelNode(ps[i], d.edges, g, reverse, nodes, variables);
      if one.Err? {
        return one;
      }
    }
    forall p | p in ParallelNodes(nodes) ensures GoodParallelWrites(g, nodes, d.edges, variables, p) {
      assert p in ps;
    }
    return Ok(());
  }

  method CheckWrites(l: Language, d: Definition, nodes: NodeMap, variables: VariableMap,
                     g: Graph) returns (r: Result<()>)
    requires WellBuilt(d) && nodes == NodesById(d.nodes) && variables == VariablesByName(d.variables)
    requires g == GraphOf(Ids(d.nodes), d.edges) && Validated(g, nodes)
    ensures r.Ok? <==> DeclaresWell(l, d) && LoopsWell(d) && WritesWell(d)
    ensures r.Err? ==> !r.error.ConflictingParallelVariableWrites?
  {
    var declared := ValidateVariables(l, d.variables, d.nodes, d.edges, nodes, variables);
    if declared.Err? {
      return declared;
    }
    var cycles := ValidateCycles(g, nodes);
    if cycles.Err? {
      return Err(cycles.error);
    }
    var parallels := CheckParallels(d, nodes, variables, g);
    if parallels.Err? {
      return parallels;
    }
    r := ValidateOwnership(variables, d.edges, g, nodes);
  }

  /** Accepts exactly the acceptable definitions and emits their sorted executable; a variable
      conflict between branches is never the reason for a rejection. */
  method Compile(l: Language, d: Definition, limits: CompilerLimits) returns (r: Result<Executable>)
    ensures r.Ok? <==> Accepted(l, d, limits)
    ensures r.Ok? ==> d.entry in Ids(d.nodes) && r.value == Emit(l, d)
    ensures r.Err? ==> !r.error.ConflictingParallelVariableWrites?
  {
    var nodes := CollectNodes(d.nodes);
    if nodes.Err? {
      return Err(nodes.error);
    }
    var variables := CollectVariables(d.variables);
    if variables.Err? {
      return Err(variables.error);
    }
    SameMaps(d, nodes.value, variables.value);
    var edges := ValidateEdges(nodes.value.Keys, d.edges);
    if edges.Err? {
      return Err(edges.error);
    }
    var g := Adjacency(nodes.value.Keys, d.edges);
    AdjacencyIsGraphOf(nodes.value.Keys, d.edges, g);
    var flow := CheckFlow(l, d, limits, nodes.value, g);
    if flow.Err? {
      return Err(flow.error);
    }
    var writes := CheckWrites(l, d, nodes.value, variables.value, g);
    if writes.Err? {
      return Err(writes.error);
    }
    r := EmitGraph(l, d);
  }

  lemma SameMaps(d: Definition, nodes: NodeMap, variables: VariableMap)
    requires UniqueIds(d.nodes) && Collects(d.nodes, nodes)
    requires UniqueNames(d.variables) && CollectsVariables(d.variables, variables)
    ensures nodes == NodesById(d.nodes) && variables == VariablesByName(d.variables)
    ensures nodes.Keys == Ids(d.nodes)
  {
    var m := NodesById(d.nodes);
    assert forall x :: x in nodes ==> nodes[x] in d.nodes;
    assert forall x :: x in m ==> m[x] in d.nodes;
    var w := VariablesByName(d.variables);
    assert forall x :: x in variables ==> variables[x] in d.variables;
    assert forall x :: x in w ==> w[x] in d.variables;
  }

  // ---------------------------------------------------------------- main results

  /** The same definition up to the order of nodes, edges and variables. */
  ghost predicate SameDefinition(d: Definition, d': Definition) {
    && d.entry == d'.entry && multiset(d.nodes) == multiset(d'.nodes)
    && multiset(d.edges) == multiset(d'.edges) && multiset(d.variables) == multiset(d'.variables)
  }

  lemma UniqueIdsIff(ns: seq<Node>)
    ensures UniqueIds(ns) <==> NoRepeats(ns) && forall n, m :: n in ns && m in ns && n.id == m.id ==> n == m
  {
  }

  lemma UniqueNamesIff(vs: seq<Variable>)
    ensures UniqueNames(vs) <==> NoRepeats(vs) && forall v, w :: v in vs && w in vs && v.name == w.name ==> v == w
  {
  }

  lemma SameWellBuilt(d: Definition, d': Definition)
    requires SameDefinition(d, d')
    ensures WellBuilt(d) <==> WellBuilt(d')
    ensures Ids(d.nodes) == Ids(d'.nodes) && EdgeSet(d.edges) == EdgeSet(d'.edges)
    ensures WellBuilt(d) ==> NodesById(d.nodes) == NodesById(d'.nodes)
                             && VariablesByName(d.variables) == VariablesByName(d'.variables)
    ensures forall p :: FanOut(d.edges, p) == FanOut(d'.edges, p)
    ensures GraphOf(Ids(d.nodes), d.edges) == GraphOf(Ids(d'.nodes), d'.edges)
  {
    PermutedRepeats(d.nodes, d'.nodes);
    PermutedRepeats(d.edges, d'.edges);
    PermutedRepeats(d.variables, d'.variables);
    UniqueIdsIff(d.nodes);
    UniqueIdsIff(d'.nodes);
    UniqueNamesIff(d.variables);
    UniqueNamesIff(d'.variables);
    assert Ids(d.nodes) == Ids(d'.nodes);
    assert forall a, b :: HasEdge(d.edges, a, b) <==> HasEdge(d'.edges, a, b);
    SameGraphs(Ids(d.nodes), d.edges, d'.edges);
  }

  lemma SameGraphs(ids: set<Id>, es: seq<EdgeDefinition>, es': seq<EdgeDefinition>)
    requires forall a, b :: HasEdge(es, a, b) <==> HasEdge(es', a, b)
    ensures GraphOf(ids, es) == GraphOf(ids, es')
  {
    var g, h := GraphOf(ids, es), GraphOf(ids, es');
    assert forall a :: a in ids ==> g[a] == h[a];
  }

  lemma SameOwned(g: Graph, nodes: NodeMap, es: seq<EdgeDefinition>, es': seq<EdgeDefinition>, v: Variable)
    requires forall p :: FanOut(es, p) == FanOut(es', p)
    ensures Owned(g, nodes, es, v) <==> Owned(g, nodes, es', v)
  {
    assert forall p, ws :: SpreadOver(g, nodes, es, p, ws) <==> SpreadOver(g, nodes, es', p, ws);
    assert forall p :: Owner(g, nodes, es, v, p) <==> Owner(g, nodes, es', v, p);
  }

  lemma SameWrites(d: Definition, d': Definition)
    requires SameDefinition(d, d') && WellBuilt(d) && WellBuilt(d')
    ensures WritesWell(d) <==> WritesWell(d')
  {
    SameWellBuilt(d, d');
    var nodes, variables, g := NodesById(d.nodes), VariablesByName(d.variables), GraphOf(Ids(d.nodes), d.edges);
    assert forall p :: GoodParallelWrites(g, nodes, d.edges, variables, p)
                  <==> GoodParallelWrites(g, nodes, d'.edges, variables, p);
    forall v | v in variables
      ensures Owned(g, nodes, d.edges, variables[v]) <==> Owned(g, nodes, d'.edges, variables[v])
    {
      SameOwned(g, nodes, d.edges, d'.edges, variables[v]);
    }
  }

  /** Permuting nodes, edges or variables changes neither acceptance nor the executable. */
  lemma SourceOrderIsIrrelevant(l: Language, d: Definition, d': Definition, limits: CompilerLimits)
    requires SameDefinition(d, d')
    ensures Accepted(l, d, limits) <==> Accepted(l, d', limits)
    ensures WellBuilt(d) && d.entry in Ids(d.nodes) ==>
      WellBuilt(d') && d'.entry in Ids(d'.nodes) && Emit(l, d) == Emit(l, d')
  {
    SameWellBuilt(d, d');
    if WellBuilt(d) {
      SameFlow(l, d, d', limits);
      SameDeclarations(l, d, d');
      SameWrites(d, d');
      SameSorted(d, d');
    }
  }

  lemma SameFlow(l: Language, d: Definition, d': Definition, limits: CompilerLimits)
    requires SameDefinition(d, d') && WellBuilt(d) && WellBuilt(d')
    ensures FlowsWell(l, d, limits) <==> FlowsWell(l, d', limits)
    ensures LoopsWell(d) <==> LoopsWell(d')
  {
    SameWellBuilt(d, d');
    SameContracts(l, d, d', limits);
  }

  lemma SameContracts(l: Language, d: Definition, d': Definition, limits: CompilerLimits)
    requires SameDefinition(d, d')
    requires WellBuilt(d) && WellBuilt(d') && NodesById(d.nodes) == NodesById(d'.nodes)
    ensures GoodContracts(l, d.nodes, d.edges, NodesById(d.nodes), limits)
       <==> GoodContracts(l, d'.nodes, d'.edges, NodesById(d'.nodes), limits)
  {
    SameElements(d.nodes, d'.nodes);
    SameElements(d.edges, d'.edges);
  }

  lemma SameDeclarations(l: Language, d: Definition, d': Definition)
    requires SameDefinition(d, d') && WellBuilt(d) && WellBuilt(d')
    ensures DeclaresWell(l, d) <==> DeclaresWell(l, d')
  {
    SameWellBuilt(d, d');
    SameElements(d.nodes, d'.nodes);
    SameElements(d.edges, d'.edges);
    assert Strict(d.nodes, VariablesByName(d.variables).Keys) <==> Strict(d'.nodes, VariablesByName(d'.variables).Keys);
  }

  lemma SameSorted(d: Definition, d': Definition)
    requires SameDefinition(d, d') && WellBuilt(d)
    ensures Sort(d.nodes, NodeLess) == Sort(d'.nodes, NodeLess)
    ensures Sort(d.edges, EdgeLess) == Sort(d'.edges, EdgeLess)
    ensures Sort(d.variables, VariableLess) == Sort(d'.variables, VariableLess)
  {
    ComparisonsAreKeyOrders();
    ListsAreSeparated(d);
    SortIgnoresOrder(d.nodes, d'.nodes, NodeLess);
    SortIgnoresOrder(d.edges, d'.edges, EdgeLess);
    SortIgnoresOrder(d.variables, d'.variables, VariableLess);
  }

  /** Two parsed definitions that differ only in the order of their lists. */
  ghost predicate SameCompiled(c: Compiled, c': Compiled) {
    && c.entry == c'.entry && multiset(c.nodes) == multiset(c'.nodes)
    && multiset(c.edges) == multiset(c'.edges) && multiset(c.variables) == multiset(c'.variables)
  }

  lemma EmittedEdge(l: Language, ns: seq<Node>, es: seq<EdgeDefinition>, x: Executable, i: nat)
    requires forall e :: e in es ==> Names(ns, e.from) && Names(ns, e.to)
    requires x.nodes == EmitNodes(l, ns) && x.edges == EmitEdges(l, ns, es) && i < |es|
    ensures x.edges[i].from < |x.nodes| && x.edges[i].to < |x.nodes|
    ensures DecompileEdge(x, x.edges[i]) == CompileEdge(l, es[i])
  {
    assert x.edges[i] == EmitEdge(l, ns, es[i]);
  }

  lemma SortedIsNumbered(l: Language, entry: Id, ns: seq<Node>, es: seq<EdgeDefinition>, vs: seq<Variable>)
    requires StrictlyAscends(ns, NodeLess)
    requires Names(ns, entry) && forall e :: e in es ==> Names(ns, e.from) && Names(ns, e.to)
    ensures Numbered(EmitSorted(l, entry, ns, es, vs))
  {
    var x := EmitSorted(l, entry, ns, es, vs);
    forall i, j | 0 <= i < j < |x.nodes| ensures Less(x.nodes[i].node.id, x.nodes[j].node.id) {
      assert NodeLess(ns[i], ns[j]);
    }
    forall e | e in x.edges ensures e.from < |x.nodes| && e.to < |x.nodes| {
      var i :| 0 <= i < |x.edges| && x.edges[i] == e;
      EmittedEdge(l, ns, es, x, i);
    }
  }

  lemma SortedDecompiles(l: Language, entry: Id, ns: seq<Node>, es: seq<EdgeDefinition>, vs: seq<Variable>)
    requires Names(ns, entry) && forall e :: e in es ==> Names(ns, e.from) && Names(ns, e.to)
    requires Numbered(EmitSorted(l, entry, ns, es, vs))
    ensures Decompile(EmitSorted(l, entry, ns, es, vs))
         == Compiled(entry, Map(ns, NodeCompiler(l)), Map(es, EdgeCompiler(l)), vs)
  {
    var x := EmitSorted(l, entry, ns, es, vs);
    forall i | 0 <= i < |es| ensures DecompileEdge(x, x.edges[i]) == CompileEdge(l, es[i]) {
      EmittedEdge(l, ns, es, x, i);
    }
    assert Decompile(x).nodes == Map(ns, NodeCompiler(l));
    assert Decompile(x).edges == Map(es, EdgeCompiler(l));
  }

  /** An executable is the definition again, renumbered: reading it back gives the same nodes,
      edges, variables and entry, with every condition parsed. */
  lemma CompilationIsFaithful(l: Language, d: Definition)
    requires WellBuilt(d) && d.entry in Ids(d.nodes)
    ensures Numbered(Emit(l, d)) && SameCompiled(Source(l, d), Decompile(Emit(l, d)))
  {
    var ns, es, vs := Sort(d.nodes, NodeLess), Sort(d.edges, EdgeLess), Sort(d.variables, VariableLess);
    SortedLists(d);
    SortedNames(d);
    SortedIsNumbered(l, d.entry, ns, es, vs);
    SortedDecompiles(l, d.entry, ns, es, vs);
    MapPermutes(d.nodes, ns, NodeCompiler(l));
    MapPermutes(d.edges, es, EdgeCompiler(l));
  }
}
