/** Node contracts: loop bounds, the configurations of parallel and join nodes, and conditions that
    parse. */
module GraphContracts {
  import opened Ordered
  import opened GraphModel
  import opened GraphConditions
  import opened GraphCycles

  /** Parallelism and queue depth are positive and bounded, and the join target is a join. */
  predicate ValidParallel(c: Configuration, nodes: NodeMap, limits: CompilerLimits)
    requires c.ParallelBranch?
  {
    && 0 < c.maxParallelism <= limits.maxParallelism
    && 0 < c.maxQueueDepth <= limits.maxConfigurationItems
    && c.joinTarget in nodes && nodes[c.joinTarget].kind.JoinResultsKind?
    && |c.mergePolicies| <= limits.maxConfigurationItems
  }

  /** Members are disjoint and bounded, the threshold is feasible and the timeout positive. */
  predicate ValidJoin(c: Configuration, limits: CompilerLimits)
    requires c.JoinResults?
  {
    && |c.required| + |c.optional| <= limits.maxConfigurationItems
    && c.required !! c.optional
    && 0 < c.minimumSuccesses <= |c.required| + |c.optional|
    && c.timeoutMs > 0
  }

  /** A parallel or join configuration belongs to a node of its kind and is valid. */
  predicate ValidConfiguration(n: Node, nodes: NodeMap, limits: CompilerLimits) {
    match n.configuration
    case Some(c) =>
      && (c.ParallelBranch? ==> n.kind.ParallelBranchKind? && ValidParallel(c, nodes, limits))
      && (c.JoinResults? ==> n.kind.JoinResultsKind? && ValidJoin(c, limits))
    case None => true
  }

  predicate IsConfigurationError(e: GraphError) {
    e.ConfigurationKindMismatch? || e.ConfigurationCollectionTooLarge? || e.InvalidNodeConfiguration?
    || e.InvalidParallelJoinTarget?
  }

  method ValidateParallelConfiguration(n: Node, c: Configuration, nodes: NodeMap, limits: CompilerLimits)
    returns (r: Result<()>)
    requires c.ParallelBranch?
    ensures r.Ok? <==> n.kind.ParallelBranchKind? && ValidParallel(c, nodes, limits)
    ensures r.Err? ==> IsConfigurationError(r.error)
  {
    if !n.kind.ParallelBranchKind? {
      return Err(ConfigurationKindMismatch(n.id));
    }
    if c.maxParallelism == 0 || c.maxParallelism > limits.maxParallelism
       || c.maxQueueDepth == 0 || c.maxQueueDepth > limits.maxConfigurationItems
    {
      return Err(InvalidNodeConfiguration(n.id));
    }
    if c.joinTarget !in nodes || !nodes[c.joinTarget].kind.JoinResultsKind? {
      return Err(InvalidParallelJoinTarget(n.id));
    }
    if |c.mergePolicies| > limits.maxConfigurationItems {
      return Err(ConfigurationCollectionTooLarge(n.id));
    }
    return Ok(());
  }

  method ValidateJoinConfiguration(n: Node, c: Configuration, limits: CompilerLimits) returns (r: Result<()>)
    requires c.JoinResults?
    ensures r.Ok? <==> n.kind.JoinResultsKind? && ValidJoin(c, limits)
    ensures r.Err? ==> IsConfigurationError(r.error)
  {
    if !n.kind.JoinResultsKind? {
      return Err(ConfigurationKindMismatch(n.id));
    }
    if |c.required| + |c.optional| > limits.maxConfigurationItems {
      return Err(ConfigurationCollectionTooLarge(n.id));
    }
    if c.required * c.optional != {} || c.minimumSuccesses == 0
       || c.minimumSuccesses > |c.required| + |c.optional| || c.timeoutMs == 0
    {
      assert c.required !! c.optional ==> c.required * c.optional == {};
      return Err(InvalidNodeConfiguration(n.id));
    }
    assert forall x :: x in c.required && x in c.optional ==> x in c.required * c.optional;
    return Ok(());
  }

  method ValidateConfiguration(n: Node, nodes: NodeMap, limits: CompilerLimits) returns (r: Result<()>)
    ensures r.Ok? <==> ValidConfiguration(n, nodes, limits)
    ensures r.Err? ==> IsConfigurationError(r.error)
  {
    match n.configuration
    case Some(ParallelBranch(_, _, _, _, _, _)) =>
      r := ValidateParallelConfiguration(n, n.configuration.value, nodes, limits);
    case Some(JoinResults(_, _, _, _, _)) =>
      r := ValidateJoinConfiguration(n, n.configuration.value, limits);
    case _ =>
      r := Ok(());
  }

  /** What the pass asks of one node. */
  ghost predicate GoodContract(l: Language, n: Node, nodes: NodeMap, limits: CompilerLimits) {
    && ValidLoopBound(n, limits.maxLoopIterations) && ValidConfiguration(n, nodes, limits)
    && !Read(l, n.condition).Malformed?
  }

  ghost predicate GoodContracts(l: Language, ns: seq<Node>, es: seq<EdgeDefinition>, nodes: NodeMap,
                                limits: CompilerLimits) {
    && (forall n :: n in ns ==> GoodContract(l, n, nodes, limits))
    && forall e :: e in es ==> !Read(l, e.condition).Malformed?
  }

  predicate IsContractError(e: GraphError) {
    e.InvalidLoopBound? || e.LoopBoundOnNonLoop? || IsConfigurationError(e) || e.InvalidCondition?
  }

  method ValidateContract(l: Language, n: Node, nodes: NodeMap, limits: CompilerLimits) returns (r: Result<()>)
    ensures r.Ok? <==> GoodContract(l, n, nodes, limits)
    ensures r.Err? ==> IsContractError(r.error)
  {
    r := ValidateLoopBound(n, limits.maxLoopIterations);
    if r.Err? {
      return;
    }
    r := ValidateConfiguration(n, nodes, limits);
    if r.Err? {
      return;
    }
    var condition := ParseCondition(l, n.id, n.condition);
    if condition.Err? {
      return Err(condition.error);
    }
  }

  /** Every node in turn, then the conditions of the edges. */
  method ValidateContracts(l: Language, ns: seq<Node>, es: seq<EdgeDefinition>, nodes: NodeMap, limits: CompilerLimits)
    returns (r: Result<()>)
    ensures r.Ok? <==> GoodContracts(l, ns, es, nodes, limits)
    ensures r.Err? ==> IsContractError(r.error)
  {
    for i := 0 to |ns|
      invariant forall k :: 0 <= k < i ==> GoodContract(l, ns[k], nodes, limits)
    {
      var one := ValidateContract(l, ns[i], nodes, limits);
      if one.Err? {
        assert ns[i] in ns;
        return one;
      }
    }
    r := ValidateEdgeConditions(l, es);
  }
}
