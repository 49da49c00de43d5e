/** The compiler's verdict and its output in terms of declared fields. */
module GraphLaws {
  import opened Ordered
  import opened Sorting
  import Expression
  import Evaluation = ExpressionEvaluation
  import opened GraphModel
  import opened GraphConditions
  import opened GraphContracts
  import opened GraphWrites
  import opened GraphCompiler

  // ---------------------------------------------------------------- the order of what is emitted

  /** An absent text stands before every other. */
  ghost predicate OptionPrecedes(a: Option<Id>, b: Option<Id>) {
    b != None && (a == None || TextPrecedes(a.value.text, b.value.text))
  }

  /** The first of source, target, label and condition in which the edges differ decides. */
  ghost predicate EdgePrecedes(a: EdgeDefinition, b: EdgeDefinition) {
    && (a.from != b.from ==> TextPrecedes(a.from.text, b.from.text))
    && (a.from == b.from && a.to != b.to ==> TextPrecedes(a.to.text, b.to.text))
    && (a.from == b.from && a.to == b.to && a.reference != b.reference ==> OptionPrecedes(a.reference, b.reference))
    && (a.from == b.from && a.to == b.to && a.reference == b.reference ==> OptionPrecedes(a.condition, b.condition))
  }

  /** The executable edge joins the nodes that carry the definition's two names. */
  ghost predicate Renumbers(l: Language, x: Executable, e: EdgeDefinition, r: ExecutableEdge) {
    && r.from < |x.nodes| && x.nodes[r.from].node.id == e.from
    && r.to < |x.nodes| && x.nodes[r.to].node.id == e.to
    && r.reference == e.reference && r.condition == Denoted(l, e.condition)
  }

  /** The executable's edges are those of `es`, in that order. */
  ghost predicate EdgesStand(l: Language, x: Executable, es: seq<EdgeDefinition>) {
    |x.edges| == |es| && forall i :: 0 <= i < |es| ==> Renumbers(l, x, es[i], x.edges[i])
  }

  ghost predicate EdgesInOrder(es: seq<EdgeDefinition>) {
    forall i, j :: 0 <= i < j < |es| ==> EdgePrecedes(es[i], es[j])
  }

  lemma PrecedesIsLess(a: Id, b: Id)
    ensures Less(a, b) <==> TextPrecedes(a.text, b.text)
  {
    LessDiffers(a.text, b.text);
  }

  lemma EdgeLessPrecedes(a: EdgeDefinition, b: EdgeDefinition)
    requires EdgeLess(a, b)
    ensures EdgePrecedes(a, b)
  {
    forall x: Id, y: Id ensures Less(x, y) <==> TextPrecedes(x.text, y.text) {
      PrecedesIsLess(x, y);
    }
    LessIsTotal();
  }

  lemma EmittedEdgesStand(l: Language, d: Definition, es: seq<EdgeDefinition>)
    requires WellBuilt(d) && d.entry in Ids(d.nodes) && es == Sort(d.edges, EdgeLess)
    ensures EdgesStand(l, Emit(l, d), es)
  {
    SortedNames(d);
    var ns := Sort(d.nodes, NodeLess);
    var x := Emit(l, d);
    assert x.edges == EmitEdges(l, ns, es);
    forall i | 0 <= i < |es| ensures Renumbers(l, x, es[i], x.edges[i]) {
      assert es[i] in es;
    }
  }

  /** The emitted edges are the definition's, each once, by source, target, label and condition. */
  lemma EdgesAreEmittedInOrder(l: Language, d: Definition) returns (es: seq<EdgeDefinition>)
    requires WellBuilt(d) && d.entry in Ids(d.nodes)
    ensures multiset(es) == multiset(d.edges) && EdgesInOrder(es) && EdgesStand(l, Emit(l, d), es)
  {
    es := Sort(d.edges, EdgeLess);
    EmittedEdgesStand(l, d, es);
    SortedLists(d);
    ComparisonsAreKeyOrders();
    ListsAreSeparated(d);
    SortIsStrict(d.edges, EdgeLess);
    forall i, j | 0 <= i < j < |es| ensures EdgePrecedes(es[i], es[j]) {
      EdgeLessPrecedes(es[i], es[j]);
    }
  }

  /** The emitted nodes and variables are the definition's, each once, in the order of their names,
      and the entry is found by its index. */
  lemma NodesAreEmittedInOrder(l: Language, d: Definition) returns (ns: seq<Node>)
    requires WellBuilt(d) && d.entry in Ids(d.nodes)
    ensures var x := Emit(l, d);
      && multiset(ns) == multiset(d.nodes) && |x.nodes| == |ns|
      && (forall i :: 0 <= i < |ns| ==> x.nodes[i] == ExecutableNode(i, CompileNode(l, ns[i])))
      && (forall i, j :: 0 <= i < j < |ns| ==> TextPrecedes(ns[i].id.text, ns[j].id.text))
      && x.entryIndex < |ns| && ns[x.entryIndex].id == d.entry
      && multiset(x.variables) == multiset(d.variables)
      && (forall i, j :: 0 <= i < j < |x.variables| ==>
            TextPrecedes(x.variables[i].name.text, x.variables[j].name.text))
  {
    ns := Sort(d.nodes, NodeLess);
    SortedNames(d);
    SortedLists(d);
    VariablesStand(d);
    forall i, j | 0 <= i < j < |ns| ensures TextPrecedes(ns[i].id.text, ns[j].id.text) {
      PrecedesIsLess(ns[i].id, ns[j].id);
      assert NodeLess(ns[i], ns[j]);
    }
  }

  lemma VariablesStand(d: Definition)
    requires WellBuilt(d)
    ensures var vs := Sort(d.variables, VariableLess);
      forall i, j :: 0 <= i < j < |vs| ==> TextPrecedes(vs[i].name.text, vs[j].name.text)
  {
    var vs := Sort(d.variables, VariableLess);
    ComparisonsAreKeyOrders();
    ListsAreSeparated(d);
    SortIsStrict(d.variables, VariableLess);
    forall i, j | 0 <= i < j < |vs| ensures TextPrecedes(vs[i].name.text, vs[j].name.text) {
      PrecedesIsLess(vs[i].name, vs[j].name);
      assert VariableLess(vs[i], vs[j]);
    }
  }

  // ---------------------------------------------------------------- the verdict by fields

  /** The node exists and declares that it writes the variable. */
  predicate DeclaresWrite(nodes: NodeMap, x: Id, name: Id) {
    x in nodes && name in nodes[x].writeVariables
  }

  /** Which variable declarations are accepted. */
  lemma VariableByFields(nodes: NodeMap, v: Variable)
    ensures GoodVariable(nodes, v) <==>
      && (v.producer == Id("runtime") || DeclaresWrite(nodes, v.producer, v.name))
      && (v.producer in nodes ==> DeclaresWrite(nodes, v.producer, v.name))
      && (forall c :: c in v.contributors ==> c != v.producer && DeclaresWrite(nodes, c, v.name))
      && (v.contributors != {} ==>
            v.producer != Id("runtime") && v.mutable && v.mergePolicy != None
            && (v.scope == RunScope || v.scope == SessionScope))
      && (forall c :: c in v.consumers ==> c in nodes)
      && (v.mergePolicy != None ==> v.mutable && v.scope != BranchScope)
      && (v.scope == BranchScope ==> v.producer != Id("runtime"))
      && (v.scope == NodeScope && v.producer == Id("runtime") ==> |v.consumers| == 1)
      && (v.scope == NodeScope && v.producer != Id("runtime") ==> forall c :: c in v.consumers ==> c == v.producer)
  {
  }

  /** Which parallel and join configurations are accepted. */
  lemma ConfigurationByFields(n: Node, nodes: NodeMap, limits: CompilerLimits)
    requires n.configuration.Some?
    ensures var c := n.configuration.value;
      && (c.ParallelBranch? ==>
           (ValidConfiguration(n, nodes, limits) <==>
             && n.kind == ParallelBranchKind
             && 1 <= c.maxParallelism <= limits.maxParallelism
             && 1 <= c.maxQueueDepth <= limits.maxConfigurationItems
             && |c.mergePolicies| <= limits.maxConfigurationItems
             && exists m :: m in nodes && m == c.joinTarget && nodes[m].kind == JoinResultsKind))
      && (c.JoinResults? ==>
           (ValidConfiguration(n, nodes, limits) <==>
             && n.kind == JoinResultsKind
             && (forall m :: !(m in c.required && m in c.optional))
             && |c.required| + |c.optional| <= limits.maxConfigurationItems
             && 1 <= c.minimumSuccesses <= |c.required| + |c.optional|
             && c.timeoutMs >= 1))
  {
  }

  /** The name of a value the runtime supplies to every condition. */
  predicate IsRuntimeName(k: string) {
    k == "session" || k == "model" || k == "runtime" || k == "budget" || k == "node" || k == "loop"
  }

  /** The path starts with the name of a runtime value, or of a declared variable the owner reads. */
  predicate MayRead(p: seq<Expression.Segment>, declared: set<Id>, variables: set<Id>) {
    p != [] && p[0].Key? ==> IsRuntimeName(p[0].key) || (Id(p[0].key) in declared && Id(p[0].key) in variables)
  }

  /** In a graph that opted into variables a condition is accepted exactly when it parses and every
      path in it starts with a runtime name, or with a declared variable that its owner reads. */
  lemma ConditionByPaths(l: Language, c: Option<Id>, declared: set<Id>, variables: set<Id>)
    ensures Confined(l, c, declared, variables, true) <==>
      match Read(l, c)
      case Absent => true
      case Malformed => false
      case Condition(e) => forall p :: p in Evaluation.Paths(e) ==> MayRead(p, declared, variables)
  {
    var reading := Read(l, c);
    if reading.Condition? {
      RootsByPaths(reading.expr, declared, variables);
    }
  }

  lemma AllowedNames(k: string, declared: set<Id>, variables: set<Id>)
    ensures k in Evaluation.Allowance(Texts(declared), Texts(variables)) <==>
      IsRuntimeName(k) || (Id(k) in declared && Id(k) in variables)
  {
    assert Id(k) in declared <==> k in Texts(declared);
    assert Id(k) in variables <==> k in Texts(variables);
  }

  lemma RootsByPaths(e: Expression.Expr, declared: set<Id>, variables: set<Id>)
    ensures Evaluation.Roots(e) <= Evaluation.Allowance(Texts(declared), Texts(variables)) <==>
      forall p :: p in Evaluation.Paths(e) ==> MayRead(p, declared, variables)
  {
    var allowance := Evaluation.Allowance(Texts(declared), Texts(variables));
    if Evaluation.Roots(e) <= allowance {
      forall p: seq<Expression.Segment> | p in Evaluation.Paths(e) ensures MayRead(p, declared, variables) {
        if p != [] && p[0].Key? {
          assert Evaluation.StartsWith(p, p[0].key);
          Evaluation.RootsArePathStarts(e, p[0].key);
          AllowedNames(p[0].key, declared, variables);
        }
      }
    }
    if forall p :: p in Evaluation.Paths(e) ==> MayRead(p, declared, variables) {
      forall k | k in Evaluation.Roots(e) ensures k in allowance {
        Evaluation.RootsArePathStarts(e, k);
        AllowedNames(k, declared, variables);
      }
    }
  }

  /** An execution may end in a node of exactly these three kinds. */
  lemma TerminalKinds(k: NodeKind)
    ensures IsTerminal(k) <==> k in {CompleteTurn, CompleteSession, Fail}
  {
  }
}
