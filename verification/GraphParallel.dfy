/** Parallel regions: traversal of branches up to the join, and the single-entry, single-exit check. */
module GraphParallel {
  import opened Ordered
  import opened Digraph
  import opened GraphModel

  // ---------------------------------------------------------------- branch regions

  /** The graph with the join removed. */
  ghost function Without(g: Graph, join: Id): Graph {
    map a | a in g && a != join :: g[a] - {join}
  }

  /** The nodes a branch can reach without passing the join. */
  ghost function Region(g: Graph, branch: Id, join: Id): set<Id> {
    set x | x in g && x != join && Reachable(Without(g, join), branch, x)
  }

  /** Failing ends a branch; any other member must have a successor and must not complete. */
  predicate ExitsProperly(g: Graph, nodes: NodeMap, x: Id) {
    x in g && x in nodes && !nodes[x].kind.CompleteTurn? && !nodes[x].kind.CompleteSession?
    && (nodes[x].kind.Fail? || g[x] != {})
  }

  ghost predicate RegionExits(g: Graph, nodes: NodeMap, branch: Id, join: Id) {
    AllExit(g, nodes, Region(g, branch, join))
  }

  ghost predicate AllExit(g: Graph, nodes: NodeMap, s: set<Id>) {
    forall x :: x in s ==> ExitsProperly(g, nodes, x)
  }

  lemma AllExitGrows(g: Graph, nodes: NodeMap, s: set<Id>, x: Id)
    ensures AllExit(g, nodes, s) && ExitsProperly(g, nodes, x) ==> AllExit(g, nodes, s + {x})
    ensures x in s && !ExitsProperly(g, nodes, x) ==> !AllExit(g, nodes, s)
  {
  }

  /** What the earlier passes established. */
  ghost predicate Validated(g: Graph, nodes: NodeMap) {
    && Closed(g) && g.Keys == nodes.Keys && WellKeyed(nodes)
    && forall x :: x in g && IsTerminal(nodes[x].kind) ==> g[x] == {}
  }

  /** Traversal progress: everything seen belongs to the region, nothing adjacent is forgotten. */
  ghost predicate Explored(g: Graph, branch: Id, join: Id, members: set<Id>, queue: seq<Id>) {
    var w := Without(g, join);
    && join !in members
    && (forall x :: x in queue ==> x in g)
    && (forall x :: x in members || (x in queue && x != join) ==> x in g && Reachable(w, branch, x))
    && (branch == join || branch in members || branch in queue)
    && forall a, b :: a in members && Edge(w, a, b) ==> b in members || b in queue
  }

  lemma ExploreStart(g: Graph, branch: Id, join: Id)
    requires branch in g
    ensures Explored(g, branch, join, {}, [branch])
  {
    ReachSelf(Without(g, join), branch);
  }

  lemma ExploreSkip(g: Graph, branch: Id, join: Id, members: set<Id>, queue: seq<Id>)
    requires Explored(g, branch, join, members, queue) && queue != []
    requires queue[0] == join || queue[0] in members
    ensures Explored(g, branch, join, members, queue[1..])
  {
    assert queue == [queue[0]] + queue[1..];
  }

  lemma ExploreVisit(g: Graph, branch: Id, join: Id, members: set<Id>, queue: seq<Id>)
    requires Closed(g) && Explored(g, branch, join, members, queue) && queue != [] && queue[0] != join
    ensures queue[0] in Region(g, branch, join)
    ensures Explored(g, branch, join, members + {queue[0]}, queue[1..] + Targets(g, queue[0]))
  {
    var x, w := queue[0], Without(g, join);
    var targets := Targets(g, x);
    assert queue == [x] + queue[1..];
    assert x in queue;
    forall b | b in targets ensures b in g && (b != join ==> Reachable(w, branch, b)) {
      assert Edge(g, x, b);
      if b != join {
        assert Edge(w, x, b);
        ReachStep(w, branch, x, b);
      }
    }
    forall b | Edge(w, x, b) ensures b in targets {
      assert Edge(g, x, b);
    }
  }

  lemma ExploreDone(g: Graph, branch: Id, join: Id, members: set<Id>)
    requires Explored(g, branch, join, members, [])
    ensures members == Region(g, branch, join)
  {
    var w := Without(g, join);
    forall x | x in Region(g, branch, join) ensures x in members {
      var p :| WalkFromTo(w, p, branch, x);
      assert |p| >= 2 ==> Edge(w, p[0], p[1]);
      ClosedContainsWalk(w, members, p);
    }
  }

  /** Breadth-first region of a branch. A failing member is not expanded, which changes nothing
      because terminal nodes have no successors. */
  method ParallelBranchRegion(branch: Id, join: Id, g: Graph, nodes: NodeMap) returns (r: Result<set<Id>>)
    requires Validated(g, nodes) && branch in g
    ensures r.Ok? <==> RegionExits(g, nodes, branch, join)
    ensures r.Ok? ==> r.value == Region(g, branch, join)
    ensures r.Err? ==> r.error.ParallelBranchTerminalCompletion? || r.error.ParallelBranchBypassesJoin?
  {
    var members: set<Id> := {};
    var queue := [branch];
    ExploreStart(g, branch, join);
    while queue != []
      invariant RegionSoFar(g, nodes, branch, join, members, queue)
      decreases |g.Keys - members|, |queue|
    {
      var node := queue[0];
      if node == join || node in members {
        ExploreSkip(g, branch, join, members, queue);
        queue := queue[1..];
      } else {
        MemberStep(g, nodes, branch, join, members, queue);
        if nodes[node].kind.CompleteTurn? || nodes[node].kind.CompleteSession? {
          return Err(ParallelBranchTerminalCompletion(branch, node));
        }
        var targets := if nodes[node].kind.Fail? then [] else Targets(g, node);
        if !nodes[node].kind.Fail? && targets == [] {
          return Err(ParallelBranchBypassesJoin(branch, node));
        }
        members, queue := members + {node}, queue[1..] + targets;
      }
    }
    ExploreDone(g, branch, join, members);
    return Ok(members);
  }

  ghost predicate RegionSoFar(g: Graph, nodes: NodeMap, branch: Id, join: Id, members: set<Id>, queue: seq<Id>) {
    Explored(g, branch, join, members, queue) && AllExit(g, nodes, members)
  }

  /** Visiting a new member: it belongs to the region, and whether it exits properly shows in its
      kind and its targets. */
  lemma MemberStep(g: Graph, nodes: NodeMap, branch: Id, join: Id, members: set<Id>, queue: seq<Id>)
    requires Validated(g, nodes) && RegionSoFar(g, nodes, branch, join, members, queue) && queue != []
    requires queue[0] != join && queue[0] !in members
    ensures queue[0] in g && |g.Keys - (members + {queue[0]})| < |g.Keys - members|
    ensures ExitsProperly(g, nodes, queue[0]) ==>
      RegionSoFar(g, nodes, branch, join, members + {queue[0]}, queue[1..] + Targets(g, queue[0]))
    ensures !ExitsProperly(g, nodes, queue[0]) ==> !RegionExits(g, nodes, branch, join)
    ensures Targets(g, queue[0]) == [] <==> g[queue[0]] == {}
    ensures nodes[queue[0]].kind.Fail? ==> Targets(g, queue[0]) == []
  {
    assert queue[0] in queue;
    ExploreVisit(g, branch, join, members, queue);
    SmallerUniverse(g.Keys, members, queue[0]);
    AllExitGrows(g, nodes, members, queue[0]);
    AllExitGrows(g, nodes, Region(g, branch, join), queue[0]);
    ExitOf(g, nodes, queue[0]);
  }

  lemma ExitOf(g: Graph, nodes: NodeMap, x: Id)
    requires Validated(g, nodes) && x in g
    ensures Targets(g, x) == [] <==> g[x] == {}
    ensures nodes[x].kind.Fail? ==> Targets(g, x) == []
  {
    if Targets(g, x) == [] {
      NoTargets(g, x);
    }
  }

  lemma NoTargets(g: Graph, x: Id)
    requires x in g && Targets(g, x) == []
    ensures g[x] == {}
  {
    forall b ensures b !in g[x] {
      assert b in Targets(g, x) <==> Edge(g, x, b);
    }
  }

  /** Everything the nodes of a branch declare, gathered by the same traversal without exit checks. */
  method CollectFrom(branch: Id, join: Id, g: Graph, declared: map<Id, set<Id>>) returns (all: set<Id>)
    requires Closed(g) && g.Keys == declared.Keys && branch in g
    ensures forall s :: s in all <==> exists x :: x in Region(g, branch, join) && x in declared && s in declared[x]
  {
    all := {};
    var visited: set<Id> := {};
    var queue := [branch];
    ExploreStart(g, branch, join);
    while queue != []
      invariant Explored(g, branch, join, visited, queue) && visited <= g.Keys
      invariant forall s :: s in all <==> exists x :: x in visited && x in declared && s in declared[x]
      decreases |g.Keys - visited|, |queue|
    {
      var node := queue[0];
      assert node in queue;
      if node == join || node in visited {
        ExploreSkip(g, branch, join, visited, queue);
        queue := queue[1..];
        continue;
      }
      ExploreVisit(g, branch, join, visited, queue);
      SmallerUniverse(g.Keys, visited, node);
      visited := visited + {node};
      all := all + declared[node];
      queue := queue[1..] + Targets(g, node);
    }
    ExploreDone(g, branch, join, visited);
  }

  // ---------------------------------------------------------------- fan-out

  /** The edges leaving a node. */
  function FanOut(es: seq<EdgeDefinition>, p: Id): set<EdgeDefinition> {
    set e | e in es && e.from == p
  }

  function EdgeSet(out: seq<EdgeDefinition>): set<EdgeDefinition> {
    set e | e in out
  }

  ghost predicate Lists(out: seq<EdgeDefinition>, fan: set<EdgeDefinition>) {
    && (forall e :: e in out <==> e in fan)
    && forall i, j :: 0 <= i < j < |out| ==> out[i] != out[j]
  }

  method OutgoingEdges(es: seq<EdgeDefinition>, p: Id) returns (out: seq<EdgeDefinition>)
    requires forall i, j :: 0 <= i < j < |es| ==> es[i] != es[j]
    ensures Lists(out, FanOut(es, p))
  {
    out := [];
    for i := 0 to |es|
      invariant Lists(out, FanOut(es[..i], p))
    {
      assert es[..i + 1] == es[..i] + [es[i]];
      if es[i].from == p {
        assert es[i] !in es[..i] && es[i] !in out;
        out := out + [es[i]];
      }
    }
    assert es[..|es|] == es;
  }

  lemma {:induction false} ListedCount(out: seq<EdgeDefinition>, fan: set<EdgeDefinition>)
    requires Lists(out, fan)
    ensures |out| == |fan|
  {
    if out == [] {
      assert fan == {};
    } else {
      var n := |out| - 1;
      var rest := fan - {out[n]};
      assert out == out[..n] + [out[n]];
      ListedCount(out[..n], rest);
      assert fan == rest + {out[n]};
    }
  }

  /** Unconditional, labelled, never straight to the join. */
  predicate GoodBranchEdge(e: EdgeDefinition, join: Id) {
    e.condition.None? && e.reference.Some? && e.to != join
  }

  predicate ApartEdges(e: EdgeDefinition, f: EdgeDefinition) {
    e.reference != f.reference && e.to != f.to
  }

  ghost predicate GoodFanOut(fan: set<EdgeDefinition>, join: Id) {
    && (forall e :: e in fan ==> GoodBranchEdge(e, join))
    && forall e, f :: e in fan && f in fan && e != f ==> ApartEdges(e, f)
  }

  function References(fan: set<EdgeDefinition>): set<Id> {
    set e | e in fan && e.reference.Some? :: e.reference.value
  }

  method ValidateFanOut(p: Id, out: seq<EdgeDefinition>, join: Id) returns (r: Result<set<Id>>)
    requires Lists(out, EdgeSet(out))
    ensures r.Ok? <==> GoodFanOut(EdgeSet(out), join)
    ensures r.Ok? ==> r.value == References(EdgeSet(out))
    ensures r.Err? ==> !r.error.ConflictingParallelVariableWrites?
  {
    var labels: set<Id>, targets: set<Id> := {}, {};
    for i := 0 to |out|
      invariant GoodFanOut(EdgeSet(out[..i]), join)
      invariant forall l :: l in labels <==> exists k :: 0 <= k < i && out[k].reference == Some(l)
      invariant forall t :: t in targets <==> exists k :: 0 <= k < i && out[k].to == t
    {
      var e := out[i];
      assert e in out;
      if e.condition.Some? {
        return Err(ConditionalParallelFanout(p));
      }
      if e.reference.None? {
        return Err(UnlabeledParallelFanout(p));
      }
      if e.reference.value in labels {
        var k :| 0 <= k < i && out[k].reference == Some(e.reference.value);
        assert out[k] in out && out[k] != e && !ApartEdges(out[k], e);
        return Err(DuplicateParallelMemberReference(p));
      }
      if e.to == join {
        return Err(InvalidParallelJoinTarget(p));
      }
      if e.to in targets {
        var k :| 0 <= k < i && out[k].to == e.to;
        assert out[k] in out && out[k] != e && !ApartEdges(out[k], e);
        return Err(DuplicateParallelBranchTarget(p));
      }
      FanOutGrows(out, i, join, labels, targets);
      labels, targets := labels + {e.reference.value}, targets + {e.to};
    }
    assert out[..|out|] == out;
    return Ok(labels);
  }

  lemma FanOutGrows(out: seq<EdgeDefinition>, i: nat, join: Id, labels: set<Id>, targets: set<Id>)
    requires i < |out| && GoodFanOut(EdgeSet(out[..i]), join) && GoodBranchEdge(out[i], join)
    requires forall l :: l in labels <==> exists k :: 0 <= k < i && out[k].reference == Some(l)
    requires forall t :: t in targets <==> exists k :: 0 <= k < i && out[k].to == t
    requires out[i].reference.value !in labels && out[i].to !in targets
    ensures GoodFanOut(EdgeSet(out[..i + 1]), join)
  {
    var before, after := EdgeSet(out[..i]), EdgeSet(out[..i + 1]);
    assert out[..i + 1] == out[..i] + [out[i]];
    forall e | e in before ensures ApartEdges(e, out[i]) && ApartEdges(out[i], e) {
      var k :| 0 <= k < i && out[k] == e;
      assert GoodBranchEdge(e, join);
      assert out[k].reference == Some(e.reference.value);
    }
    forall e, f | e in after && f in after && e != f ensures ApartEdges(e, f) {
      assert e in before || e == out[i];
      assert f in before || f == out[i];
    }
  }

  /** Capacity, members and policy agree with the join. */
  predicate JoinAgrees(c: Configuration, j: Configuration, labels: set<Id>, branches: nat)
    requires c.ParallelBranch? && j.JoinResults?
  {
    && labels == j.required + j.optional
    && (c.joinPolicy.All? ==> j.optional == {} && |j.required| == branches && j.minimumSuccesses == branches)
    && (c.joinPolicy.MinimumSuccess? ==> j.failurePolicy.MinimumSuccess?)
  }

  function Capacity(c: Configuration): nat
    requires c.ParallelBranch?
  {
    (if c.serialized then 1 else c.maxParallelism) + c.maxQueueDepth
  }

  // ---------------------------------------------------------------- the declarative check

  predicate HasParallelConfiguration(nodes: NodeMap, p: Id) {
    p in nodes && nodes[p].configuration.Some? && nodes[p].configuration.value.ParallelBranch?
  }

  function JoinOf(nodes: NodeMap, p: Id): Id
    requires HasParallelConfiguration(nodes, p)
  {
    nodes[p].configuration.value.joinTarget
  }

  predicate HasJoinConfiguration(nodes: NodeMap, join: Id) {
    join in nodes && nodes[join].configuration.Some? && nodes[join].configuration.value.JoinResults?
  }

  /** Regions of different branches share no node. */
  ghost predicate RegionsDisjoint(g: Graph, fan: set<EdgeDefinition>, join: Id) {
    forall e, f :: e in fan && f in fan && e != f ==> Region(g, e.to, join) !! Region(g, f.to, join)
  }

  /** A region is entered only by its own fan-out edge. */
  ghost predicate RegionsEnteredAtHead(g: Graph, p: Id, fan: set<EdgeDefinition>, join: Id) {
    forall e, m, s :: e in fan && m in Region(g, e.to, join) && Edge(g, s, m) ==>
      (m == e.to && s == p) || s in Region(g, e.to, join)
  }

  ghost predicate InSomeRegion(g: Graph, fan: set<EdgeDefinition>, join: Id, x: Id) {
    exists e :: e in fan && x in Region(g, e.to, join)
  }

  /** The join is entered only from branch regions. */
  ghost predicate JoinEnteredFromRegions(g: Graph, fan: set<EdgeDefinition>, join: Id) {
    forall s :: Edge(g, s, join) ==> InSomeRegion(g, fan, join, s)
  }

  /** The fan-out, its join configuration and its capacity fit together. */
  ghost predicate FanOutFits(nodes: NodeMap, p: Id, fan: set<EdgeDefinition>) {
    && HasParallelConfiguration(nodes, p)
    && HasJoinConfiguration(nodes, JoinOf(nodes, p))
    && 2 <= |fan| <= Capacity(nodes[p].configuration.value)
    && GoodFanOut(fan, JoinOf(nodes, p))
    && JoinAgrees(nodes[p].configuration.value, nodes[JoinOf(nodes, p)].configuration.value, References(fan), |fan|)
  }

  /** What the topology check of one parallel node decides. */
  ghost predicate GoodParallel(g: Graph, nodes: NodeMap, p: Id, fan: set<EdgeDefinition>) {
    && FanOutFits(nodes, p, fan)
    && var join := JoinOf(nodes, p);
    && (forall e :: e in fan ==> RegionExits(g, nodes, e.to, join))
    && RegionsDisjoint(g, fan, join)
    && RegionsEnteredAtHead(g, p, fan, join)
    && JoinEnteredFromRegions(g, fan, join)
  }

  // ---------------------------------------------------------------- the fan-out by its fields

  /** Some branch has that label. */
  ghost predicate LabelsBranch(fan: set<EdgeDefinition>, reference: Id) {
    exists e :: e in fan && e.reference == Some(reference)
  }

  lemma {:induction false} LabelsAreAsManyAsBranches(fan: set<EdgeDefinition>, join: Id)
    requires GoodFanOut(fan, join)
    ensures |References(fan)| == |fan|
  {
    if fan == {} {
    } else {
      var e :| e in fan;
      var rest := fan - {e};
      LabelsAreAsManyAsBranches(rest, join);
      assert GoodBranchEdge(e, join);
      forall f | f in rest ensures f.reference != e.reference {
        assert ApartEdges(f, e);
      }
      assert fan == rest + {e};
      assert References(fan) == References(rest) + {e.reference.value};
      assert e.reference.value !in References(rest);
    }
  }

  /** How many branches a parallel node may have, how they must look, and what each policy demands of
      the join: with `All` every branch is required and counts, and with `MinimumSuccess` the join
      fails by the same rule. */
  lemma FanOutByFields(nodes: NodeMap, p: Id, fan: set<EdgeDefinition>)
    requires HasParallelConfiguration(nodes, p) && HasJoinConfiguration(nodes, JoinOf(nodes, p))
    ensures var c, j := nodes[p].configuration.value, nodes[JoinOf(nodes, p)].configuration.value;
      FanOutFits(nodes, p, fan) <==>
        && |fan| >= 2
        && (c.serialized ==> |fan| <= 1 + c.maxQueueDepth)
        && (!c.serialized ==> |fan| <= c.maxParallelism + c.maxQueueDepth)
        && (forall e :: e in fan ==> e.condition == None && e.reference != None && e.to != c.joinTarget)
        && (forall e, f :: e in fan && f in fan && e != f ==> e.reference != f.reference && e.to != f.to)
        && (forall l :: LabelsBranch(fan, l) <==> l in j.required || l in j.optional)
        && (c.joinPolicy == All ==> j.optional == {} && j.minimumSuccesses == |fan|)
        && (c.joinPolicy == JoinPolicy.MinimumSuccess ==> j.failurePolicy == JoinFailurePolicy.MinimumSuccess)
  {
    var c, j := nodes[p].configuration.value, nodes[JoinOf(nodes, p)].configuration.value;
    GoodFanOutByFields(fan, c.joinTarget);
    LabelsByFields(fan, j.required, j.optional);
    if GoodFanOut(fan, c.joinTarget) {
      LabelsAreAsManyAsBranches(fan, c.joinTarget);
      assert j.optional == {} ==> j.required + j.optional == j.required;
    }
  }

  lemma LabelsByFields(fan: set<EdgeDefinition>, required: set<Id>, optional: set<Id>)
    ensures References(fan) == required + optional
       <==> forall l :: LabelsBranch(fan, l) <==> l in required || l in optional
  {
    forall l ensures LabelsBranch(fan, l) <==> l in References(fan) {
      if LabelsBranch(fan, l) {
        var e :| e in fan && e.reference == Some(l);
        assert e.reference.value == l;
      }
    }
  }

  lemma GoodFanOutByFields(fan: set<EdgeDefinition>, join: Id)
    ensures GoodFanOut(fan, join) <==>
      && (forall e :: e in fan ==> e.condition == None && e.reference != None && e.to != join)
      && (forall e, f :: e in fan && f in fan && e != f ==> e.reference != f.reference && e.to != f.to)
  {
    if forall e, f :: e in fan && f in fan && e != f ==> e.reference != f.reference && e.to != f.to {
      forall e, f | e in fan && f in fan && e != f ensures ApartEdges(e, f) {
      }
    }
    if GoodFanOut(fan, join) {
      forall e | e in fan ensures e.condition == None && e.reference != None && e.to != join {
        assert GoodBranchEdge(e, join);
      }
      forall e, f | e in fan && f in fan && e != f ensures e.reference != f.reference && e.to != f.to {
        assert ApartEdges(e, f);
      }
    }
  }

  // ---------------------------------------------------------------- the check itself

  method ValidateJoin(p: Id, nodes: NodeMap, out: seq<EdgeDefinition>) returns (r: Result<Id>)
    requires Lists(out, EdgeSet(out)) && p in nodes
    ensures r.Ok? <==> FanOutFits(nodes, p, EdgeSet(out))
    ensures r.Ok? ==> r.value == JoinOf(nodes, p)
    ensures r.Err? ==> !r.error.ConflictingParallelVariableWrites?
  {
    ghost var fan := EdgeSet(out);
    ListedCount(out, fan);
    if |out| < 2 {
      return Err(ParallelNeedsBranches(p));
    }
    if !HasParallelConfiguration(nodes, p) {
      return Err(InvalidNodeConfiguration(p));
    }
    var c := nodes[p].configuration.value;
    var active := if c.serialized then 1 else c.maxParallelism;
    if |out| > active + c.maxQueueDepth {
      return Err(InvalidNodeConfiguration(p));
    }
    if c.joinTarget !in nodes {
      return Err(InvalidParallelJoinTarget(p));
    }
    if !HasJoinConfiguration(nodes, c.joinTarget) {
      return Err(InvalidNodeConfiguration(c.joinTarget));
    }
    var j := nodes[c.joinTarget].configuration.value;
    var labels := ValidateFanOut(p, out, c.joinTarget);
    if labels.Err? {
      return Err(labels.error);
    }
    if labels.value != j.required + j.optional {
      return Err(ParallelJoinMemberMismatch(p));
    }
    if c.joinPolicy.All? && (j.optional != {} || |j.required| != |out| || j.minimumSuccesses != |out|) {
      return Err(ParallelJoinPolicyMismatch(p));
    }
    if c.joinPolicy.MinimumSuccess? && !j.failurePolicy.MinimumSuccess? {
      return Err(ParallelJoinPolicyMismatch(p));
    }
    return Ok(c.joinTarget);
  }

  /** The regions of the listed branches, in order. */
  ghost predicate AreRegions(g: Graph, out: seq<EdgeDefinition>, join: Id, regions: seq<set<Id>>) {
    |regions| == |out| && forall k :: 0 <= k < |out| ==> regions[k] == Region(g, out[k].to, join)
  }

  method BranchRegions(out: seq<EdgeDefinition>, join: Id, g: Graph, nodes: NodeMap) returns (r: Result<seq<set<Id>>>)
    requires Validated(g, nodes) && forall e :: e in out ==> e.to in g
    ensures r.Ok? <==> forall e :: e in out ==> RegionExits(g, nodes, e.to, join)
    ensures r.Ok? ==> AreRegions(g, out, join, r.value)
    ensures r.Err? ==> !r.error.ConflictingParallelVariableWrites?
  {
    var regions: seq<set<Id>> := [];
    for i := 0 to |out|
      invariant |regions| == i
      invariant forall k :: 0 <= k < i ==> regions[k] == Region(g, out[k].to, join)
      invariant forall k :: 0 <= k < i ==> RegionExits(g, nodes, out[k].to, join)
    {
      assert out[i] in out;
      var region := ParallelBranchRegion(out[i].to, join, g, nodes);
      if region.Err? {
        return Err(region.error);
      }
      regions := regions + [region.value];
    }
    return Ok(regions);
  }

  /** The first element two of the sets share, if any. */
  method FirstShared(sets: seq<set<Id>>) returns (found: Option<Id>)
    ensures found.None? <==> forall i, j :: 0 <= i < j < |sets| ==> sets[i] !! sets[j]
    ensures found.Some? ==> exists i, j :: 0 <= i < j < |sets| && found.value in sets[i] && found.value in sets[j]
  {
    for left := 0 to |sets|
      invariant forall i, j :: 0 <= i < left && i < j < |sets| ==> sets[i] !! sets[j]
    {
      for right := left + 1 to |sets|
        invariant forall j :: left < j < right ==> sets[left] !! sets[j]
      {
        var shared := sets[left] * sets[right];
        if shared != {} {
          return Some(Least(shared));
        }
        assert forall x :: x in sets[left] && x in sets[right] ==> x in shared;
      }
    }
    return None;
  }

  predicate EntryAllowed(p: Id, e: EdgeDefinition, region: set<Id>, m: Id, s: Id) {
    (m == e.to && s == p) || s in region
  }

  ghost predicate HeadOnly(g: Graph, p: Id, e: EdgeDefinition, region: set<Id>) {
    forall m, s :: m in region && Edge(g, s, m) ==> EntryAllowed(p, e, region, m, s)
  }

  method CheckMemberEntries(p: Id, e: EdgeDefinition, region: set<Id>, m: Id, g: Graph,
                            reverse: Graph) returns (ok: bool)
    requires IsReverse(g, reverse) && m in g
    ensures ok <==> forall s :: Edge(g, s, m) ==> EntryAllowed(p, e, region, m, s)
  {
    var sources := Targets(reverse, m);
    for j := 0 to |sources|
      invariant forall k :: 0 <= k < j ==> EntryAllowed(p, e, region, m, sources[k])
    {
      if !EntryAllowed(p, e, region, m, sources[j]) {
        assert sources[j] in sources;
        assert Edge(g, sources[j], m);
        return false;
      }
    }
    forall s | Edge(g, s, m) ensures EntryAllowed(p, e, region, m, s) {
      assert Edge(reverse, m, s);
      assert s in sources;
    }
    return true;
  }

  method CheckRegionEntries(p: Id, e: EdgeDefinition, region: set<Id>, g: Graph, reverse: Graph) returns (ok: bool)
    requires IsReverse(g, reverse) && region <= g.Keys
    ensures ok <==> HeadOnly(g, p, e, region)
  {
    var members := Ascending(region);
    for i := 0 to |members|
      invariant forall k, s :: 0 <= k < i && Edge(g, s, members[k]) ==> EntryAllowed(p, e, region, members[k], s)
    {
      assert members[i] in members;
      var good := CheckMemberEntries(p, e, region, members[i], g, reverse);
      if !good {
        return false;
      }
    }
    forall m, s | m in region && Edge(g, s, m) ensures EntryAllowed(p, e, region, m, s) {
      assert m in members;
    }
    return true;
  }

  method CheckEntries(p: Id, out: seq<EdgeDefinition>, regions: seq<set<Id>>, g: Graph,
                      reverse: Graph) returns (ok: bool)
    requires IsReverse(g, reverse) && |regions| == |out| && forall k :: 0 <= k < |out| ==> regions[k] <= g.Keys
    ensures ok <==> forall k :: 0 <= k < |out| ==> HeadOnly(g, p, out[k], regions[k])
  {
    for i := 0 to |out|
      invariant forall k :: 0 <= k < i ==> HeadOnly(g, p, out[k], regions[k])
    {
      var good := CheckRegionEntries(p, out[i], regions[i], g, reverse);
      if !good {
        return false;
      }
    }
    return true;
  }

  method CheckJoinEntries(join: Id, members: set<Id>, g: Graph, reverse: Graph) returns (ok: bool)
    requires IsReverse(g, reverse)
    ensures ok <==> forall s :: Edge(g, s, join) ==> s in members
  {
    var sources := Targets(reverse, join);
    for j := 0 to |sources|
      invariant forall k :: 0 <= k < j ==> sources[k] in members
    {
      if sources[j] !in members {
        assert sources[j] in sources;
        assert Edge(g, sources[j], join);
        return false;
      }
    }
    forall s | Edge(g, s, join) ensures s in members {
      assert Edge(reverse, join, s);
      assert s in sources;
    }
    return true;
  }

  function Combined(regions: seq<set<Id>>): (all: set<Id>)
    ensures forall x :: x in all <==> exists k :: 0 <= k < |regions| && x in regions[k]
  {
    if regions == [] then {} else Combined(regions[..|regions| - 1]) + regions[|regions| - 1]
  }

  /** Decides `GoodParallel` for one parallel node. */
  method ValidateParallelTopology(p: Id, out: seq<EdgeDefinition>, g: Graph, reverse: Graph, nodes: NodeMap)
    returns (r: Result<seq<set<Id>>>)
    requires Validated(g, nodes) && IsReverse(g, reverse) && p in nodes
    requires Lists(out, EdgeSet(out)) && forall e :: e in out ==> e.to in g
    ensures r.Ok? <==> GoodParallel(g, nodes, p, EdgeSet(out))
    ensures r.Ok? ==> AreRegions(g, out, JoinOf(nodes, p), r.value)
    ensures r.Err? ==> !r.error.ConflictingParallelVariableWrites?
  {
    ghost var fan := EdgeSet(out);
    var join := ValidateJoin(p, nodes, out);
    if join.Err? {
      return Err(join.error);
    }
    var regions := BranchRegions(out, join.value, g, nodes);
    if regions.Err? {
      return Err(regions.error);
    }
    var shared := FirstShared(regions.value);
    ListedDisjoint(g, out, join.value, regions.value);
    if shared.Some? {
      return Err(OverlappingParallelBranchRegions(p));
    }
    var entered := CheckEntries(p, out, regions.value, g, reverse);
    ListedEntries(g, p, out, join.value, regions.value);
    if !entered {
      return Err(ExternalParallelBranchEntry(p));
    }
    var joined := CheckJoinEntries(join.value, Combined(regions.value), g, reverse);
    ListedMembers(g, out, join.value, regions.value);
    if !joined {
      return Err(ExternalParallelJoinEntry(p));
    }
    return Ok(regions.value);
  }

  lemma ListedDisjoint(g: Graph, out: seq<EdgeDefinition>, join: Id, regions: seq<set<Id>>)
    requires AreRegions(g, out, join, regions) && Lists(out, EdgeSet(out))
    ensures RegionsDisjoint(g, EdgeSet(out), join)
       <==> forall i, j :: 0 <= i < j < |regions| ==> regions[i] !! regions[j]
  {
    if RegionsDisjoint(g, EdgeSet(out), join) {
      forall i, j | 0 <= i < j < |regions| ensures regions[i] !! regions[j] {
        assert out[i] in out && out[j] in out;
      }
    }
    if forall i, j :: 0 <= i < j < |regions| ==> regions[i] !! regions[j] {
      forall e, f | e in out && f in out && e != f ensures Region(g, e.to, join) !! Region(g, f.to, join) {
        var i :| 0 <= i < |out| && out[i] == e;
        var j :| 0 <= j < |out| && out[j] == f;
        assert regions[i] !! regions[j];
      }
    }
  }

  lemma ListedEntries(g: Graph, p: Id, out: seq<EdgeDefinition>, join: Id, regions: seq<set<Id>>)
    requires AreRegions(g, out, join, regions)
    ensures RegionsEnteredAtHead(g, p, EdgeSet(out), join)
       <==> forall k :: 0 <= k < |out| ==> HeadOnly(g, p, out[k], regions[k])
  {
    if forall k :: 0 <= k < |out| ==> HeadOnly(g, p, out[k], regions[k]) {
      forall e, m, s | e in out && m in Region(g, e.to, join) && Edge(g, s, m)
        ensures (m == e.to && s == p) || s in Region(g, e.to, join)
      {
        var k :| 0 <= k < |out| && out[k] == e;
        assert EntryAllowed(p, out[k], regions[k], m, s);
      }
    }
    if RegionsEnteredAtHead(g, p, EdgeSet(out), join) {
      forall k | 0 <= k < |out| ensures HeadOnly(g, p, out[k], regions[k]) {
        assert out[k] in out;
      }
    }
  }

  lemma ListedMembers(g: Graph, out: seq<EdgeDefinition>, join: Id, regions: seq<set<Id>>)
    requires AreRegions(g, out, join, regions)
    ensures forall x :: InSomeRegion(g, EdgeSet(out), join, x) <==> x in Combined(regions)
  {
    forall x ensures InSomeRegion(g, EdgeSet(out), join, x) <==> x in Combined(regions) {
      if k :| 0 <= k < |regions| && x in regions[k] {
        assert out[k] in out;
      }
    }
  }
}
