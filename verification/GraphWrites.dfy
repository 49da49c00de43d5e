/** Variable writers and parallel writes: who may write what, and who owns a merged variable. */
module GraphWrites {
  import opened Ordered
  import opened Digraph
  import opened GraphModel
  import opened GraphConditions
  import opened GraphParallel
  import opened GraphRegions

  /** The reserved producer of values the runtime supplies. */
  const RUNTIME: Id := Id("runtime")

  type VariableMap = map<Id, Variable>

  // ---------------------------------------------------------------- declarations

  predicate Writes(nodes: NodeMap, x: Id, v: Id) {
    x in nodes && v in nodes[x].writeVariables
  }

  predicate ContributorsAllowed(v: Variable) {
    v.producer != RUNTIME && v.mutable && (v.scope.RunScope? || v.scope.SessionScope?) && v.mergePolicy.Some?
  }

  predicate GoodContributor(nodes: NodeMap, v: Variable, c: Id) {
    c != v.producer && Writes(nodes, c, v.name)
  }

  /** A merged variable is mutable and not branch-scoped. */
  predicate MergePolicyAllowed(v: Variable) {
    v.mergePolicy.Some? ==> v.mutable && !v.scope.BranchScope?
  }

  /** Node-scoped values stay with their producer; branch-scoped ones come from a node. */
  predicate GoodScope(v: Variable) {
    match v.scope
    case NodeScope => if v.producer == RUNTIME then |v.consumers| == 1 else v.consumers <= {v.producer}
    case BranchScope => v.producer != RUNTIME
    case _ => true
  }

  /** A declaration whose producer and contributors exist and write it, and whose consumers exist. */
  predicate GoodVariable(nodes: NodeMap, v: Variable) {
    && (v.producer != RUNTIME ==> v.producer in nodes)
    && (v.producer in nodes ==> Writes(nodes, v.producer, v.name))
    && (v.contributors != {} ==> ContributorsAllowed(v))
    && (forall c :: c in v.contributors ==> GoodContributor(nodes, v, c))
    && v.consumers <= nodes.Keys
    && MergePolicyAllowed(v) && GoodScope(v)
  }

  /** Only the producer and the contributors write a variable, and it is declared. */
  predicate GoodWrite(variables: VariableMap, x: Id, v: Id) {
    v in variables && (variables[v].producer == x || x in variables[v].contributors)
  }

  /** A node reads only declared variables that name it as a consumer. */
  predicate GoodRead(variables: VariableMap, x: Id, v: Id) {
    v in variables && x in variables[v].consumers
  }

  ghost predicate UniqueNames(vs: seq<Variable>) {
    forall i, j :: 0 <= i < j < |vs| ==> vs[i].name != vs[j].name
  }

  ghost predicate CollectsVariables(vs: seq<Variable>, variables: VariableMap) {
    && (forall n :: n in variables ==> variables[n].name == n)
    && forall v :: v in vs <==> v.name in variables && variables[v.name] == v
  }

  /** What the variable pass decides about reads. */
  ghost predicate ReadsDeclared(nodes: NodeMap, variables: VariableMap) {
    forall x, v :: x in nodes && v in nodes[x].readVariables ==> GoodRead(variables, x, v)
  }

  /** What the variable pass decides about conditions: a node's own, and an edge's by its source. */
  ghost predicate ConditionsConfined(l: Language, nodes: NodeMap, es: seq<EdgeDefinition>, variables: set<Id>,
                                     strict: bool)
  {
    && (forall x :: x in nodes ==> Confined(l, nodes[x].condition, nodes[x].readVariables, variables, strict))
    && forall e :: e in es && e.from in nodes ==>
         Confined(l, e.condition, nodes[e.from].readVariables, variables, strict)
  }

  /** What the variable pass decides about writers. */
  ghost predicate WritersDeclared(nodes: NodeMap, variables: VariableMap) {
    && (forall n :: n in variables ==> GoodVariable(nodes, variables[n]))
    && forall x, v :: Writes(nodes, x, v) ==> GoodWrite(variables, x, v)
  }

  method CollectVariables(vs: seq<Variable>) returns (r: Result<VariableMap>)
    ensures r.Ok? <==> UniqueNames(vs)
    ensures r.Ok? ==> CollectsVariables(vs, r.value)
    ensures r.Err? ==> r.error.DuplicateVariable?
  {
    var variables: VariableMap := map[];
    for i := 0 to |vs|
      invariant UniqueNames(vs[..i]) && CollectsVariables(vs[..i], variables)
    {
      assert vs[..i + 1] == vs[..i] + [vs[i]];
      if vs[i].name in variables {
        assert variables[vs[i].name] in vs[..i];
        return Err(DuplicateVariable(vs[i].name));
      }
      variables := variables[vs[i].name := vs[i]];
    }
    assert vs[..|vs|] == vs;
    return Ok(variables);
  }

  predicate IsVariableError(e: GraphError) {
    e.InvalidVariableMergePolicy? || e.InvalidVariableScope?
    || e.UnknownVariableProducer? || e.VariableProducerDoesNotWrite? || e.InvalidVariableMergeContributors?
    || e.UnknownVariableMergeContributor? || e.VariableMergeContributorDoesNotWrite?
    || e.UnknownVariableConsumer? || e.UndeclaredVariableRead? || e.UnauthorizedVariableConsumer?
    || e.UndeclaredVariableWrite? || e.UnauthorizedVariableWriter?
    || e.InvalidCondition? || e.UndeclaredConditionVariable? || e.ConditionVariableNotDeclaredRead?
  }

  method ValidateVariable(v: Variable, nodes: NodeMap) returns (r: Result<()>)
    ensures r.Ok? <==> GoodVariable(nodes, v)
    ensures r.Err? ==> IsVariableError(r.error)
  {
    if v.mergePolicy.Some? && !v.mutable {
      return Err(InvalidVariableMergePolicy(v.name));
    }
    if v.producer != RUNTIME && v.producer !in nodes {
      return Err(UnknownVariableProducer(v.name));
    }
    if v.producer in nodes && v.name !in nodes[v.producer].writeVariables {
      return Err(VariableProducerDoesNotWrite(v.name));
    }
    if v.contributors != {} && (v.producer == RUNTIME || !v.mutable || v.scope.NodeScope? || v.scope.BranchScope?
                                || v.mergePolicy.None?)
    {
      return Err(InvalidVariableMergeContributors(v.name));
    }
    var order := Ascending(v.contributors);
    for i := 0 to |order|
      invariant forall k :: 0 <= k < i ==> GoodContributor(nodes, v, order[k])
    {
      var c := order[i];
      assert c in order;
      if c == v.producer {
        return Err(InvalidVariableMergeContributors(v.name));
      }
      if c !in nodes {
        return Err(UnknownVariableMergeContributor(v.name));
      }
      if v.name !in nodes[c].writeVariables {
        return Err(VariableMergeContributorDoesNotWrite(v.name));
      }
    }
    forall c | c in v.contributors ensures GoodContributor(nodes, v, c) {
      assert c in order;
    }
    var consumers := Ascending(v.consumers);
    for i := 0 to |consumers|
      invariant forall k :: 0 <= k < i ==> consumers[k] in nodes
    {
      if consumers[i] !in nodes {
        assert consumers[i] in consumers;
        return Err(UnknownVariableConsumer(v.name));
      }
    }
    forall c | c in v.consumers ensures c in nodes {
      assert c in consumers;
    }
    if v.scope.BranchScope? && v.mergePolicy.Some? {
      return Err(InvalidVariableMergePolicy(v.name));
    }
    var scoped := match v.scope
      case NodeScope => if v.producer == RUNTIME then |v.consumers| == 1 else v.consumers <= {v.producer}
      case BranchScope => v.producer != RUNTIME
      case _ => true;
    if !scoped {
      return Err(InvalidVariableScope(v.name));
    }
    return Ok(());
  }

  method ValidateNodeWrites(n: Node, variables: VariableMap) returns (r: Result<()>)
    ensures r.Ok? <==> forall v :: v in n.writeVariables ==> GoodWrite(variables, n.id, v)
    ensures r.Err? ==> IsVariableError(r.error)
  {
    var order := Ascending(n.writeVariables);
    for i := 0 to |order|
      invariant forall k :: 0 <= k < i ==> GoodWrite(variables, n.id, order[k])
    {
      var v := order[i];
      assert v in order;
      if v !in variables {
        return Err(UndeclaredVariableWrite(n.id, v));
      }
      if variables[v].producer != n.id && n.id !in variables[v].contributors {
        return Err(UnauthorizedVariableWriter(n.id, v));
      }
    }
    forall v | v in n.writeVariables ensures GoodWrite(variables, n.id, v) {
      assert v in order;
    }
    return Ok(());
  }

  method ValidateNodeReads(n: Node, variables: VariableMap) returns (r: Result<()>)
    ensures r.Ok? <==> forall v :: v in n.readVariables ==> GoodRead(variables, n.id, v)
    ensures r.Err? ==> IsVariableError(r.error)
  {
    var order := Ascending(n.readVariables);
    for i := 0 to |order|
      invariant forall k :: 0 <= k < i ==> GoodRead(variables, n.id, order[k])
    {
      var v := order[i];
      assert v in order;
      if v !in variables {
        return Err(UndeclaredVariableRead(n.id, v));
      }
      if n.id !in variables[v].consumers {
        return Err(UnauthorizedVariableConsumer(n.id, v));
      }
    }
    forall v | v in n.readVariables ensures GoodRead(variables, n.id, v) {
      assert v in order;
    }
    return Ok(());
  }

  method ValidateDeclarations(vs: seq<Variable>, nodes: NodeMap) returns (r: Result<()>)
    ensures r.Ok? <==> forall v :: v in vs ==> GoodVariable(nodes, v)
    ensures r.Err? ==> IsVariableError(r.error)
  {
    for i := 0 to |vs|
      invariant forall k :: 0 <= k < i ==> GoodVariable(nodes, vs[k])
    {
      assert vs[i] in vs;
      var one := ValidateVariable(vs[i], nodes);
      if one.Err? {
        return one;
      }
    }
    return Ok(());
  }

  /** Everything the pass asks of one node. */
  ghost predicate GoodAccess(l: Language, n: Node, variables: VariableMap, strict: bool)
  {
    && (forall v :: v in n.readVariables ==> GoodRead(variables, n.id, v))
    && (forall v :: v in n.writeVariables ==> GoodWrite(variables, n.id, v))
    && Confined(l, n.condition, n.readVariables, variables.Keys, strict)
  }

  method ValidateNodeAccess(l: Language, n: Node, variables: VariableMap, strict: bool) returns (r: Result<()>)
    ensures r.Ok? <==> GoodAccess(l, n, variables, strict)
    ensures r.Err? ==> IsVariableError(r.error)
  {
    r := ValidateNodeReads(n, variables);
    if r.Err? {
      return;
    }
    r := ValidateNodeWrites(n, variables);
    if r.Err? {
      return;
    }
    r := ValidateAccess(l, n.id, n.condition, n.readVariables, variables.Keys, strict);
  }

  method ValidateEdgeAccess(l: Language, es: seq<EdgeDefinition>, nodes: NodeMap, variables: set<Id>, strict: bool)
    returns (r: Result<()>)
    requires forall e :: e in es ==> e.from in nodes
    ensures r.Ok? <==> forall e :: e in es ==> Confined(l, e.condition, nodes[e.from].readVariables, variables, strict)
    ensures r.Err? ==> IsVariableError(r.error)
  {
    for i := 0 to |es|
      invariant forall k :: 0 <= k < i ==>
        es[k] in es && Confined(l, es[k].condition, nodes[es[k].from].readVariables, variables, strict)
    {
      assert es[i] in es;
      var one := ValidateAccess(l, es[i].from, es[i].condition, nodes[es[i].from].readVariables, variables, strict);
      if one.Err? {
        return one;
      }
    }
    return Ok(());
  }

  /** Everything the variable pass decides. */
  ghost predicate VariablesDeclared(l: Language, ns: seq<Node>, es: seq<EdgeDefinition>, nodes: NodeMap,
                                    variables: VariableMap)
  {
    && WritersDeclared(nodes, variables) && ReadsDeclared(nodes, variables)
    && ConditionsConfined(l, nodes, es, variables.Keys, Strict(ns, variables.Keys))
  }

  method ValidateVariables(l: Language, vs: seq<Variable>, ns: seq<Node>, es: seq<EdgeDefinition>, nodes: NodeMap,
                           variables: VariableMap) returns (r: Result<()>)
    requires CollectsVariables(vs, variables) && Collects(ns, nodes) && ValidEdges(nodes.Keys, es)
    ensures r.Ok? <==> VariablesDeclared(l, ns, es, nodes, variables)
    ensures r.Err? ==> IsVariableError(r.error)
  {
    var strict := Strict(ns, variables.Keys);
    PassesDecide(l, vs, ns, es, nodes, variables, strict);
    r := ValidateDeclarations(vs, nodes);
    if r.Err? {
      return;
    }
    for i := 0 to |ns|
      invariant forall k :: 0 <= k < i ==> GoodAccess(l, ns[k], variables, strict)
    {
      assert ns[i] in ns;
      var one := ValidateNodeAccess(l, ns[i], variables, strict);
      if one.Err? {
        return one;
      }
    }
    assert forall n :: n in ns ==> GoodAccess(l, n, variables, strict);
    r := ValidateEdgeAccess(l, es, nodes, variables.Keys, strict);
  }

  /** The three loops together decide the whole condition. */
  lemma PassesDecide(l: Language, vs: seq<Variable>, ns: seq<Node>, es: seq<EdgeDefinition>, nodes: NodeMap,
                     variables: VariableMap, strict: bool)
    requires CollectsVariables(vs, variables) && Collects(ns, nodes) && ValidEdges(nodes.Keys, es)
    requires strict == Strict(ns, variables.Keys)
    ensures VariablesDeclared(l, ns, es, nodes, variables) <==>
      && (forall v :: v in vs ==> GoodVariable(nodes, v))
      && (forall n :: n in ns ==> GoodAccess(l, n, variables, strict))
      && forall e :: e in es ==> Confined(l, e.condition, nodes[e.from].readVariables, variables.Keys, strict)
  {
    assert forall n :: n in variables ==> variables[n] in vs;
    assert forall x :: x in nodes ==> nodes[x] in ns;
    if VariablesDeclared(l, ns, es, nodes, variables) {
      forall n | n in ns ensures GoodAccess(l, n, variables, strict) {
        assert forall v :: v in n.writeVariables ==> Writes(nodes, n.id, v);
      }
    }
  }

  /** The nodes that write a variable are exactly its node producer and its contributors. */
  lemma WritersAreProducerAndContributors(nodes: NodeMap, variables: VariableMap, v: Id, x: Id)
    requires WritersDeclared(nodes, variables) && v in variables && variables[v].name == v
    ensures Writes(nodes, x, v) <==> x in nodes && (x == variables[v].producer || x in variables[v].contributors)
  {
    assert GoodVariable(nodes, variables[v]);
    if x in variables[v].contributors {
      assert GoodContributor(nodes, variables[v], x);
    }
    if Writes(nodes, x, v) {
      assert GoodWrite(variables, x, v);
    }
  }

  // ---------------------------------------------------------------- one parallel node

  predicate Serialized(nodes: NodeMap, p: Id) {
    HasParallelConfiguration(nodes, p) && nodes[p].configuration.value.serialized
  }

  predicate MergesKnownVariables(nodes: NodeMap, p: Id, variables: VariableMap) {
    HasParallelConfiguration(nodes, p) && nodes[p].configuration.value.mergePolicies.Keys <= variables.Keys
  }

  /** What the write check of one parallel node decides. */
  ghost predicate GoodParallelWrites(g: Graph, nodes: NodeMap, es: seq<EdgeDefinition>, variables: VariableMap, p: Id) {
    && GoodParallel(g, nodes, p, FanOut(es, p))
    && (!Serialized(nodes, p) ==> ScopesApart(g, nodes, FanOut(es, p), JoinOf(nodes, p)))
    && MergesKnownVariables(nodes, p, variables)
  }

  method BranchDeclarations(out: seq<EdgeDefinition>, join: Id, g: Graph, declared: map<Id, set<Id>>)
    returns (all: seq<set<Id>>)
    requires Closed(g) && g.Keys == declared.Keys && forall e :: e in out ==> e.to in g
    ensures |all| == |out|
    ensures forall k, s :: 0 <= k < |out| ==>
      (s in all[k] <==> exists x :: x in Region(g, out[k].to, join) && x in declared && s in declared[x])
  {
    all := [];
    for i := 0 to |out|
      invariant |all| == i
      invariant forall k, s :: 0 <= k < i ==>
        (s in all[k] <==> exists x :: x in Region(g, out[k].to, join) && x in declared && s in declared[x])
    {
      assert out[i] in out;
      var one := CollectFrom(out[i].to, join, g, declared);
      all := all + [one];
    }
  }

  lemma ListedScopes(g: Graph, nodes: NodeMap, out: seq<EdgeDefinition>, join: Id, scopes: seq<set<Id>>)
    requires Lists(out, EdgeSet(out)) && |scopes| == |out|
    requires forall k :: 0 <= k < |out| ==> scopes[k] == BranchScopes(g, nodes, out[k].to, join)
    ensures ScopesApart(g, nodes, EdgeSet(out), join)
       <==> forall i, j :: 0 <= i < j < |scopes| ==> scopes[i] !! scopes[j]
  {
    if ScopesApart(g, nodes, EdgeSet(out), join) {
      forall i, j | 0 <= i < j < |scopes| ensures scopes[i] !! scopes[j] {
        assert out[i] in out && out[j] in out;
      }
    }
    if forall i, j :: 0 <= i < j < |scopes| ==> scopes[i] !! scopes[j] {
      forall e, f | e in out && f in out && e != f
        ensures BranchScopes(g, nodes, e.to, join) !! BranchScopes(g, nodes, f.to, join)
      {
        var i :| 0 <= i < |out| && out[i] == e;
        var j :| 0 <= j < |out| && out[j] == f;
        assert scopes[i] !! scopes[j];
      }
    }
  }

  /** The first scope two of the sets share, in order of the pairs. */
  method CheckScopes(out: seq<EdgeDefinition>, join: Id, g: Graph, nodes: NodeMap) returns (found: Option<Id>)
    requires Validated(g, nodes) && Lists(out, EdgeSet(out)) && forall e :: e in out ==> e.to in g
    ensures found.None? <==> ScopesApart(g, nodes, EdgeSet(out), join)
  {
    var declared := map x | x in nodes :: nodes[x].writeScopes;
    var scopes := BranchDeclarations(out, join, g, declared);
    forall k | 0 <= k < |out| ensures scopes[k] == BranchScopes(g, nodes, out[k].to, join) {
    }
    ListedScopes(g, nodes, out, join, scopes);
    found := FirstShared(scopes);
  }

  /** Two branches write the variable, and nothing declares how to merge or order the writes. */
  predicate Conflicting(nodes: NodeMap, p: Id, v: Variable)
    requires HasParallelConfiguration(nodes, p)
  {
    && !v.scope.BranchScope?
    && v.mergePolicy.None? && v.name !in nodes[p].configuration.value.mergePolicies
    && !nodes[p].configuration.value.serialized
  }

  /** Looks for a conflicting variable in two branches' written variables. */
  method FindConflict(shared: set<Id>, p: Id, nodes: NodeMap, variables: VariableMap) returns (r: Result<()>)
    requires HasParallelConfiguration(nodes, p) && shared <= variables.Keys
    ensures r.Ok? <==> forall v :: v in shared ==> !Conflicting(nodes, p, variables[v])
  {
    var order := Ascending(shared);
    for i := 0 to |order|
      invariant forall k :: 0 <= k < i ==> !Conflicting(nodes, p, variables[order[k]])
    {
      assert order[i] in order;
      if Conflicting(nodes, p, variables[order[i]]) {
        return Err(ConflictingParallelVariableWrites(p, order[i]));
      }
    }
    forall v | v in shared ensures !Conflicting(nodes, p, variables[v]) {
      assert v in order;
    }
    return Ok(());
  }

  /** A variable written by two different nodes has contributors, hence a merge policy. */
  lemma SharedWritesAreMerged(nodes: NodeMap, variables: VariableMap, v: Id, x: Id, y: Id)
    requires WritersDeclared(nodes, variables) && Writes(nodes, x, v) && Writes(nodes, y, v) && x != y
    ensures v in variables && variables[v].mergePolicy.Some?
  {
    assert GoodWrite(variables, x, v) && GoodWrite(variables, y, v);
    assert GoodVariable(nodes, variables[v]);
    assert variables[v].contributors != {} by {
      assert x in variables[v].contributors || y in variables[v].contributors;
    }
  }

  method CheckVariableConflicts(out: seq<EdgeDefinition>, regions: seq<set<Id>>, p: Id, g: Graph, nodes: NodeMap,
                                variables: VariableMap) returns (r: Result<()>)
    requires Validated(g, nodes) && WritersDeclared(nodes, variables)
    requires GoodParallel(g, nodes, p, EdgeSet(out)) && AreRegions(g, out, JoinOf(nodes, p), regions)
    requires Lists(out, EdgeSet(out)) && forall e :: e in out ==> e.to in g
    ensures r.Ok?
  {
    var join := JoinOf(nodes, p);
    var declared := map x | x in nodes :: nodes[x].writeVariables;
    var written := BranchDeclarations(out, join, g, declared);
    for left := 0 to |written| {
      for right := left + 1 to |written| {
        var shared := written[left] * written[right];
        forall v | v in shared ensures v in variables && variables[v].mergePolicy.Some? {
          var x :| x in Region(g, out[left].to, join) && x in declared && v in declared[x];
          var y :| y in Region(g, out[right].to, join) && y in declared && v in declared[y];
          assert out[left] in EdgeSet(out) && out[right] in EdgeSet(out);
          assert x != y;
          SharedWritesAreMerged(nodes, variables, v, x, y);
        }
        r := FindConflict(shared, p, nodes, variables);
        if r.Err? {
          return;
        }
      }
    }
    return Ok(());
  }

  method ValidateParallelNode(p: Id, es: seq<EdgeDefinition>, g: Graph, reverse: Graph, nodes: NodeMap,
                              variables: VariableMap) returns (r: Result<()>)
    requires Validated(g, nodes) && IsReverse(g, reverse) && p in nodes && ValidEdges(nodes.Keys, es)
    requires WritersDeclared(nodes, variables)
    ensures r.Ok? <==> GoodParallelWrites(g, nodes, es, variables, p)
    ensures r.Err? ==> !r.error.ConflictingParallelVariableWrites?
  {
    var out := OutgoingEdges(es, p);
    assert EdgeSet(out) == FanOut(es, p);
    assert forall e :: e in out ==> e in es;
    var regions := ValidateParallelTopology(p, out, g, reverse, nodes);
    if regions.Err? {
      return Err(regions.error);
    }
    var join := JoinOf(nodes, p);
    var shared := CheckScopes(out, join, g, nodes);
    if !nodes[p].configuration.value.serialized && shared.Some? {
      return Err(ConflictingParallelWrites(p, shared.value));
    }
    var conflict := CheckVariableConflicts(out, regions.value, p, g, nodes, variables);
    if conflict.Err? {
      return conflict;
    }
    var unknown := nodes[p].configuration.value.mergePolicies.Keys - variables.Keys;
    if unknown != {} {
      var v := Least(unknown);
      return Err(UnknownParallelMergeVariable(p, v));
    }
    assert nodes[p].configuration.value.mergePolicies.Keys <= variables.Keys by {
      forall v | v in nodes[p].configuration.value.mergePolicies.Keys ensures v in variables {
        assert v !in unknown;
      }
    }
    return Ok(());
  }
}
