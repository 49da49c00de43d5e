/** What acceptance by the compiler guarantees about a definition: the theorems of the single
    passes, joined and stated of every accepted definition. */
module GraphGuarantees {
  import opened Ordered
  import opened Digraph
  import opened GraphModel
  import opened GraphConditions
  import opened GraphCycles
  import opened GraphContracts
  import opened GraphParallel
  import opened GraphRegions
  import opened GraphWrites
  import opened GraphOwnership
  import opened ExpressionEvaluation
  import Compiler = GraphCompiler

  ghost predicate AcceptedDefinition(l: Language, d: Definition, limits: CompilerLimits)
  {
    Compiler.Accepted(l, d, limits)
  }

  function Nodes(d: Definition): NodeMap
    requires Compiler.WellBuilt(d)
  {
    Compiler.NodesById(d.nodes)
  }

  ghost function Edges(d: Definition): Graph
    requires Compiler.WellBuilt(d)
  {
    Compiler.GraphOf(Compiler.Ids(d.nodes), d.edges)
  }

  lemma AcceptedIsValidated(l: Language, d: Definition, limits: CompilerLimits)
    requires AcceptedDefinition(l, d, limits)
    ensures Validated(Edges(d), Nodes(d)) && IsAdjacency(Nodes(d).Keys, d.edges, Edges(d))
  {
    Compiler.GraphOfIsAdjacency(Compiler.Ids(d.nodes), d.edges);
  }

  /** How often a node may run: a loop node its declared bound. */
  function Iterations(nodes: NodeMap, x: Id): nat {
    if x in nodes && nodes[x].maxIterations.Some? then nodes[x].maxIterations.value else 0
  }

  function Bounds(nodes: NodeMap): Id -> nat {
    x => Iterations(nodes, x)
  }

  /** Every node lies on a walk from the entry to a terminal node. */
  lemma NothingIsDead(l: Language, d: Definition, limits: CompilerLimits, x: Id) returns (p: seq<Id>)
    requires AcceptedDefinition(l, d, limits) && x in Nodes(d)
    ensures IsWalk(Edges(d), p) && p[0] == d.entry && x in p
    ensures p[|p| - 1] in Nodes(d) && IsTerminal(Nodes(d)[p[|p| - 1]].kind)
  {
    p := EveryNodeIsUseful(Edges(d), Nodes(d), d.entry, x);
  }

  /** Every execution that respects the declared loop bounds is finite: with S the sum of the bounds
      and N the number of nodes that are not loops, it visits at most S + (S + 1) * N nodes. */
  lemma ExecutionsAreFinite(l: Language, d: Definition, limits: CompilerLimits, p: seq<Id>)
    requires AcceptedDefinition(l, d, limits) && IsWalk(Edges(d), p) && p[0] in Nodes(d)
    requires forall x :: x in LoopNodes(Nodes(d)) ==> Visits(p, x) <= Iterations(Nodes(d), x)
    ensures Fits(|p|, Total(LoopNodes(Nodes(d)), Bounds(Nodes(d))), |Nodes(d).Keys - LoopNodes(Nodes(d))|)
  {
    AcceptedIsValidated(l, d, limits);
    assert Edges(d).Keys == Nodes(d).Keys;
    IterationsBoundWalks(Edges(d), Nodes(d), Bounds(Nodes(d)), p);
  }

  /** A declared bound is positive and within the compiler's limits. */
  lemma LoopsAreBounded(l: Language, d: Definition, limits: CompilerLimits, x: Id)
    requires AcceptedDefinition(l, d, limits) && x in Nodes(d)
    ensures if x in LoopNodes(Nodes(d)) then 0 < Iterations(Nodes(d), x) <= limits.maxLoopIterations
            else Nodes(d)[x].maxIterations.None?
  {
    assert Nodes(d)[x] in d.nodes;
  }

  lemma ParallelsAreAccepted(l: Language, d: Definition, limits: CompilerLimits, p: Id)
    requires AcceptedDefinition(l, d, limits) && p in ParallelNodes(Nodes(d))
    ensures AcceptedParallel(Edges(d), Nodes(d), d.edges, p)
  {
    AcceptedIsValidated(l, d, limits);
  }

  /** Executions enter a branch only by its parallel node and its own head: an execution that starts
      outside the branches and the join of `p` and visits a member of the branch of `e` at `k` came
      through `p` and then the head of that branch, and has stayed in the branch since. */
  lemma BranchesAreEnteredAtTheirHead(l: Language, d: Definition, limits: CompilerLimits, p: Id, e: EdgeDefinition,
                                      q: seq<Id>, k: nat)
    returns (j: nat)
    requires AcceptedDefinition(l, d, limits) && p in ParallelNodes(Nodes(d)) && e in FanOut(d.edges, p)
    requires IsWalk(Edges(d), q) && StartsOutside(Edges(d), FanOut(d.edges, p), JoinOf(Nodes(d), p), q)
    requires k < |q| && q[k] in Region(Edges(d), e.to, JoinOf(Nodes(d), p))
    ensures EnteredThrough(Edges(d), p, e, JoinOf(Nodes(d), p), q, j, k)
  {
    ParallelsAreAccepted(l, d, limits, p);
    j := SingleEntry(Edges(d), Nodes(d), d.edges, p, e, q, k);
  }

  /** However the branches of a parallel node without a serialization policy interleave their scope
      writes, the scopes end with the same values. */
  lemma BranchesDoNotRace(l: Language, d: Definition, limits: CompilerLimits, p: Id, m: map<Id, int>, ws: seq<Write>,
                          ws': seq<Write>)
    requires AcceptedDefinition(l, d, limits) && p in ParallelNodes(Nodes(d)) && !Serialized(Nodes(d), p)
    requires WritesDeclared(Edges(d), Nodes(d), FanOut(d.edges, p), JoinOf(Nodes(d), p), ws)
    requires WritesDeclared(Edges(d), Nodes(d), FanOut(d.edges, p), JoinOf(Nodes(d), p), ws')
    requires forall e :: e in FanOut(d.edges, p) ==> OfBranch(ws, e) == OfBranch(ws', e)
    ensures Outcome(m, ws) == Outcome(m, ws')
  {
    assert GoodParallelWrites(Edges(d), Nodes(d), d.edges, Compiler.VariablesByName(d.variables), p);
    InterleavingIsIrrelevant(Edges(d), Nodes(d), FanOut(d.edges, p), JoinOf(Nodes(d), p), m, ws, ws');
  }

  /** Two different nodes that write one variable lie in different branches of the one parallel node
      its writers spread over, and that node merges the variable by its declared policy. */
  lemma SharedVariablesAreMerged(l: Language, d: Definition, limits: CompilerLimits, v: Id, x: Id,
                                 y: Id) returns (p: Id)
    requires AcceptedDefinition(l, d, limits) && Writes(Nodes(d), x, v) && Writes(Nodes(d), y, v) && x != y
    ensures var variables := Compiler.VariablesByName(d.variables);
      && v in variables && Owner(Edges(d), Nodes(d), d.edges, variables[v], p)
      && InDifferentBranches(Edges(d), FanOut(d.edges, p), JoinOf(Nodes(d), p), x, y)
      && ConfiguredPolicy(Nodes(d), p, v).Some? && ConfiguredPolicy(Nodes(d), p, v) == variables[v].mergePolicy
  {
    p := WriterDiscipline(Edges(d), Nodes(d), d.edges, Compiler.VariablesByName(d.variables), v, x, y);
  }

  lemma NodeScopedUse(nodes: NodeMap, variables: VariableMap, v: Id, x: Id)
    requires WritersDeclared(nodes, variables) && ReadsDeclared(nodes, variables) && v in variables
    requires variables[v].scope.NodeScope? && variables[v].producer != RUNTIME
    requires x in nodes && (v in nodes[x].readVariables || v in nodes[x].writeVariables)
    ensures x == variables[v].producer
  {
    assert GoodVariable(nodes, variables[v]);
    if v in nodes[x].readVariables {
      assert GoodRead(variables, x, v);
    } else {
      assert Writes(nodes, x, v) && GoodWrite(variables, x, v);
    }
  }

  /** In an accepted definition only the producing node reads or writes its node-scoped variable. */
  lemma NodeScopedIsPrivate(l: Language, d: Definition, limits: CompilerLimits, v: Id, x: Id)
    requires AcceptedDefinition(l, d, limits) && v in Compiler.VariablesByName(d.variables)
    requires Compiler.VariablesByName(d.variables)[v].scope.NodeScope?
    requires Compiler.VariablesByName(d.variables)[v].producer != RUNTIME
    requires x in Nodes(d) && (v in Nodes(d)[x].readVariables || v in Nodes(d)[x].writeVariables)
    ensures x == Compiler.VariablesByName(d.variables)[v].producer
  {
    NodeScopedUse(Nodes(d), Compiler.VariablesByName(d.variables), v, x);
  }

  /** In an accepted definition that opts into variables, the condition of a node depends only on the
      runtime roots and the variables that node declares to read. */
  lemma NodeConditionsAreConfined(l: Language, d: Definition, limits: CompilerLimits, x: Id, a: Json, b: Json)
    requires AcceptedDefinition(l, d, limits) && x in Nodes(d) && Read(l, Nodes(d)[x].condition).Condition?
    requires Strict(d.nodes, Compiler.VariablesByName(d.variables).Keys)
    requires AgreeOn(a, b, RUNTIME_ROOTS + Texts(Nodes(d)[x].readVariables))
    ensures Evaluate(Read(l, Nodes(d)[x].condition).expr, a) == Evaluate(Read(l, Nodes(d)[x].condition).expr, b)
  {
    ConfinedReadsOnlyDeclared(l, Nodes(d)[x].condition, Nodes(d)[x].readVariables,
                              Compiler.VariablesByName(d.variables).Keys, a, b);
  }

  /** Likewise the condition of an edge, by what its source node declares to read. */
  lemma EdgeConditionsAreConfined(l: Language, d: Definition, limits: CompilerLimits, e: EdgeDefinition, a: Json,
                                  b: Json)
    requires AcceptedDefinition(l, d, limits) && e in d.edges && Read(l, e.condition).Condition?
    requires Strict(d.nodes, Compiler.VariablesByName(d.variables).Keys)
    requires AgreeOn(a, b, RUNTIME_ROOTS + Texts(Nodes(d)[e.from].readVariables))
    ensures Evaluate(Read(l, e.condition).expr, a) == Evaluate(Read(l, e.condition).expr, b)
  {
    ConfinedReadsOnlyDeclared(l, e.condition, Nodes(d)[e.from].readVariables,
                              Compiler.VariablesByName(d.variables).Keys, a, b);
  }

  // ---------------------------------------------------------------- single entry of executions

  /** The walk is inside some branch at `k`, entered through the parallel node and that branch's head. */
  ghost predicate CameThrough(g: Graph, fan: set<EdgeDefinition>, p: Id, join: Id, q: seq<Id>, k: int) {
    exists e, j :: e in fan && EnteredThrough(g, p, e, join, q, j, k)
  }

  /** The walk visits a member of a branch, or the join, only after passing the parallel node and
      entering that branch at its head. */
  ghost predicate EntersProperly(g: Graph, fan: set<EdgeDefinition>, p: Id, join: Id, q: seq<Id>) {
    && (forall e, k :: e in fan && 0 <= k < |q| && q[k] in Region(g, e.to, join) ==>
          exists j :: EnteredThrough(g, p, e, join, q, j, k))
    && forall k :: 0 <= k < |q| && q[k] == join ==> CameThrough(g, fan, p, join, q, k - 1)
  }

  /** Every execution, from the entry of the definition, enters the branches of `p` properly. */
  ghost predicate ExecutionsEnterProperly(d: Definition, p: Id)
    requires Compiler.WellBuilt(d) && HasParallelConfiguration(Nodes(d), p)
  {
    forall q :: IsWalk(Edges(d), q) && q[0] == d.entry ==>
      EntersProperly(Edges(d), FanOut(d.edges, p), p, JoinOf(Nodes(d), p), q)
  }

  ghost predicate EntryOutside(d: Definition, p: Id)
    requires Compiler.WellBuilt(d) && HasParallelConfiguration(Nodes(d), p)
  {
    d.entry != JoinOf(Nodes(d), p) && !InSomeRegion(Edges(d), FanOut(d.edges, p), JoinOf(Nodes(d), p), d.entry)
  }

  lemma OutsideWalksEnterProperly(l: Language, d: Definition, limits: CompilerLimits, p: Id, q: seq<Id>)
    requires AcceptedDefinition(l, d, limits) && p in ParallelNodes(Nodes(d))
    requires IsWalk(Edges(d), q) && StartsOutside(Edges(d), FanOut(d.edges, p), JoinOf(Nodes(d), p), q)
    ensures EntersProperly(Edges(d), FanOut(d.edges, p), p, JoinOf(Nodes(d), p), q)
  {
    ParallelsAreAccepted(l, d, limits, p);
    var g, nodes, fan, join := Edges(d), Nodes(d), FanOut(d.edges, p), JoinOf(Nodes(d), p);
    forall e, k | e in fan && 0 <= k < |q| && q[k] in Region(g, e.to, join)
      ensures exists j :: EnteredThrough(g, p, e, join, q, j, k)
    {
      var j := SingleEntry(g, nodes, d.edges, p, e, q, k);
    }
    forall k | 0 <= k < |q| && q[k] == join ensures CameThrough(g, fan, p, join, q, k - 1) {
      var e, j := JoinAfterBranch(g, nodes, d.edges, p, q, k);
    }
  }

  /** In an accepted definition every execution enters the branches and the join of a parallel node
      only through that node and a head exactly when the entry lies outside them. */
  lemma SingleEntryIffEntryOutside(l: Language, d: Definition, limits: CompilerLimits, p: Id)
    requires AcceptedDefinition(l, d, limits) && p in ParallelNodes(Nodes(d))
    ensures HasParallelConfiguration(Nodes(d), p)
    ensures ExecutionsEnterProperly(d, p) <==> EntryOutside(d, p)
  {
    ParallelsAreAccepted(l, d, limits, p);
    if EntryOutside(d, p) {
      forall q | IsWalk(Edges(d), q) && q[0] == d.entry
        ensures EntersProperly(Edges(d), FanOut(d.edges, p), p, JoinOf(Nodes(d), p), q)
      {
        OutsideWalksEnterProperly(l, d, limits, p, q);
      }
    } else {
      var q := [d.entry];
      assert IsWalk(Edges(d), q) && q[0] == d.entry;
      EntryInsideFails(Edges(d), FanOut(d.edges, p), p, JoinOf(Nodes(d), p), d.entry);
    }
  }

  lemma EntryInsideFails(g: Graph, fan: set<EdgeDefinition>, p: Id, join: Id, entry: Id)
    requires entry == join || InSomeRegion(g, fan, join, entry)
    ensures !EntersProperly(g, fan, p, join, [entry])
  {
    var q := [entry];
    assert q[0] == entry;
  }
}
