/** Ownership of merged variables: all writers of one variable sit in distinct branches of exactly
    one parallel node, which merges it by the declared policy. */
module GraphOwnership {
  import opened Ordered
  import opened Digraph
  import opened GraphModel
  import opened GraphParallel
  import opened GraphRegions
  import opened GraphWrites

  function WritersOf(v: Variable): set<Id> {
    {v.producer} + v.contributors
  }

  /** Every writer lies in some branch of `p`, and no branch holds two of them. */
  ghost predicate SpreadOver(g: Graph, nodes: NodeMap, es: seq<EdgeDefinition>, p: Id, writers: set<Id>) {
    && HasParallelConfiguration(nodes, p)
    && (forall w :: w in writers ==> InSomeRegion(g, FanOut(es, p), JoinOf(nodes, p), w))
    && forall e, w, x :: e in FanOut(es, p) && w in writers && x in writers && w != x ==>
         !(w in Region(g, e.to, JoinOf(nodes, p)) && x in Region(g, e.to, JoinOf(nodes, p)))
  }

  function ConfiguredPolicy(nodes: NodeMap, p: Id, v: Id): Option<MergePolicy> {
    if HasParallelConfiguration(nodes, p) && v in nodes[p].configuration.value.mergePolicies
    then Some(nodes[p].configuration.value.mergePolicies[v]) else None
  }

  function ParallelNodes(nodes: NodeMap): set<Id> {
    set p | p in nodes && nodes[p].kind.ParallelBranchKind?
  }

  /** `p` is the one parallel node the writers spread over, and it merges by the declared policy. */
  ghost predicate Owner(g: Graph, nodes: NodeMap, es: seq<EdgeDefinition>, v: Variable, p: Id) {
    && p in ParallelNodes(nodes) && SpreadOver(g, nodes, es, p, WritersOf(v))
    && ConfiguredPolicy(nodes, p, v.name) == v.mergePolicy
    && forall q :: q in ParallelNodes(nodes) && SpreadOver(g, nodes, es, q, WritersOf(v)) ==> q == p
  }

  ghost predicate Owned(g: Graph, nodes: NodeMap, es: seq<EdgeDefinition>, v: Variable) {
    v.contributors != {} ==> exists p :: Owner(g, nodes, es, v, p)
  }

  // ---------------------------------------------------------------- positions

  function Position(regions: seq<set<Id>>, x: Id): (r: Option<nat>)
    ensures r.Some? ==> r.value < |regions| && x in regions[r.value]
    ensures r.None? ==> forall k :: 0 <= k < |regions| ==> x !in regions[k]
  {
    if regions == [] then None
    else match Position(regions[..|regions| - 1], x)
         case Some(k) => Some(k)
         case None => if x in regions[|regions| - 1] then Some(|regions| - 1) else None
  }

  /** Writers occupy distinct regions. */
  ghost predicate Apart(regions: seq<set<Id>>, writers: set<Id>) {
    && (forall w :: w in writers ==> Position(regions, w).Some?)
    && forall w, x :: w in writers && x in writers && w != x ==> Position(regions, w) != Position(regions, x)
  }

  /** The regions occupied by the first `i` writers. */
  ghost predicate Occupied(regions: seq<set<Id>>, order: seq<Id>, i: nat, positions: set<nat>)
    requires i <= |order|
  {
    forall k :: k in positions <==> exists w :: w in order[..i] && Position(regions, w) == Some(k)
  }

  /** As many regions are occupied as writers were seen exactly when those writers are apart. */
  ghost predicate Tallied(regions: seq<set<Id>>, order: seq<Id>, i: nat, positions: set<nat>)
    requires i <= |order|
  {
    && |positions| <= i && Occupied(regions, order, i, positions)
    && (|positions| == i <==> Apart(regions, Elements(order[..i])))
  }

  /** Compares the number of occupied regions with the number of writers. */
  method OccupyDistinctRegions(regions: seq<set<Id>>, writers: set<Id>) returns (ok: bool)
    ensures ok <==> Apart(regions, writers)
  {
    var order := Ascending(writers);
    var positions: set<nat> := {};
    TallyStart(regions, order);
    for i := 0 to |order|
      invariant Tallied(regions, order, i, positions)
    {
      TallyNext(regions, order, i, positions);
      var position := Position(regions, order[i]);
      positions := if position.Some? then positions + {position.value} else positions;
    }
    WholeOrder(order, writers);
    ok := |positions| == |order|;
  }

  lemma TallyStart(regions: seq<set<Id>>, order: seq<Id>)
    ensures Tallied(regions, order, 0, {})
  {
    assert order[..0] == [] && Elements([]) == {};
  }

  lemma WholeOrder(order: seq<Id>, writers: set<Id>)
    requires forall x :: x in order <==> x in writers
    ensures Elements(order[..|order|]) == writers
  {
    assert order[..|order|] == order;
  }

  lemma TallyNext(regions: seq<set<Id>>, order: seq<Id>, i: nat, positions: set<nat>)
    requires i < |order| && StrictlyAscending(order) && Tallied(regions, order, i, positions)
    ensures var next := Position(regions, order[i]);
      Tallied(regions, order, i + 1, if next.Some? then positions + {next.value} else positions)
  {
    NextIsNew(order, i);
    var x := order[i];
    assert Elements(order[..i + 1]) == Elements(order[..i]) + {x};
    OccupyNext(regions, order, i, positions);
    ApartNext(regions, order, i, positions);
  }

  lemma OccupyNext(regions: seq<set<Id>>, order: seq<Id>, i: nat, positions: set<nat>)
    requires i < |order| && Occupied(regions, order, i, positions) && order[..i + 1] == order[..i] + [order[i]]
    ensures var next := Position(regions, order[i]);
      Occupied(regions, order, i + 1, if next.Some? then positions + {next.value} else positions)
  {
  }

  lemma ApartNext(regions: seq<set<Id>>, order: seq<Id>, i: nat, positions: set<nat>)
    requires i < |order| && Occupied(regions, order, i, positions) && order[i] !in order[..i]
    requires Elements(order[..i + 1]) == Elements(order[..i]) + {order[i]}
    ensures var next := Position(regions, order[i]);
      Apart(regions, Elements(order[..i + 1])) <==>
      Apart(regions, Elements(order[..i])) && next.Some? && next.value !in positions
  {
    ApartGrows(regions, Elements(order[..i]), order[i]);
  }

  lemma ApartGrows(regions: seq<set<Id>>, writers: set<Id>, x: Id)
    requires x !in writers
    ensures Apart(regions, writers + {x}) <==>
      Apart(regions, writers) && Position(regions, x).Some?
      && forall w :: w in writers ==> Position(regions, w) != Position(regions, x)
  {
    if Apart(regions, writers + {x}) {
      assert x in writers + {x};
      assert forall w :: w in writers ==> w in writers + {x} && w != x;
    }
  }

  /** Over disjoint regions, distinct positions are distinct branches. */
  lemma ApartIffSpread(g: Graph, nodes: NodeMap, es: seq<EdgeDefinition>, p: Id, out: seq<EdgeDefinition>,
                       regions: seq<set<Id>>, writers: set<Id>)
    requires HasParallelConfiguration(nodes, p)
    requires Lists(out, FanOut(es, p)) && AreRegions(g, out, JoinOf(nodes, p), regions)
    requires RegionsDisjoint(g, FanOut(es, p), JoinOf(nodes, p))
    ensures Apart(regions, writers) <==> SpreadOver(g, nodes, es, p, writers)
  {
    var fan, join := FanOut(es, p), JoinOf(nodes, p);
    forall w, k | 0 <= k < |out| && w in regions[k] ensures Position(regions, w) == Some(k) {
      UniquePosition(g, out, join, regions, w, k, fan);
    }
    if Apart(regions, writers) {
      forall w | w in writers ensures InSomeRegion(g, fan, join, w) {
        var k := Position(regions, w).value;
        assert out[k] in out;
      }
      forall e, w, x | e in fan && w in writers && x in writers && w != x
        ensures !(w in Region(g, e.to, join) && x in Region(g, e.to, join))
      {
        assert e in out;
        var k :| 0 <= k < |out| && out[k] == e;
        assert Position(regions, w) != Position(regions, x);
      }
    }
    if SpreadOver(g, nodes, es, p, writers) {
      SpreadGivesApart(g, nodes, es, p, out, regions, writers);
    }
  }

  lemma UniquePosition(g: Graph, out: seq<EdgeDefinition>, join: Id, regions: seq<set<Id>>, w: Id, k: nat,
                       fan: set<EdgeDefinition>)
    requires Lists(out, fan) && AreRegions(g, out, join, regions) && RegionsDisjoint(g, fan, join)
    requires k < |out| && w in regions[k]
    ensures Position(regions, w) == Some(k)
  {
    var m := Position(regions, w).value;
    assert out[m] in out && out[k] in out;
  }

  lemma SpreadGivesApart(g: Graph, nodes: NodeMap, es: seq<EdgeDefinition>, p: Id, out: seq<EdgeDefinition>,
                         regions: seq<set<Id>>, writers: set<Id>)
    requires SpreadOver(g, nodes, es, p, writers)
    requires Lists(out, FanOut(es, p)) && AreRegions(g, out, JoinOf(nodes, p), regions)
    ensures Apart(regions, writers)
  {
    var fan, join := FanOut(es, p), JoinOf(nodes, p);
    forall w | w in writers ensures Position(regions, w).Some? {
      assert InSomeRegion(g, fan, join, w);
      var e :| e in fan && w in Region(g, e.to, join);
      assert e in out;
      var k :| 0 <= k < |out| && out[k] == e;
      assert w in regions[k];
    }
    forall w, x | w in writers && x in writers && w != x ensures Position(regions, w) != Position(regions, x) {
      var k := Position(regions, w).value;
      assert out[k] in out;
    }
  }

  // ---------------------------------------------------------------- the check

  /** The branch regions of one parallel node, in edge order. */
  ghost predicate Surveyed(g: Graph, nodes: NodeMap, es: seq<EdgeDefinition>, p: Id, regions: seq<set<Id>>) {
    && GoodParallel(g, nodes, p, FanOut(es, p))
    && exists out :: Lists(out, FanOut(es, p)) && AreRegions(g, out, JoinOf(nodes, p), regions)
  }

  method SurveyOne(p: Id, es: seq<EdgeDefinition>, g: Graph, nodes: NodeMap) returns (regions: seq<set<Id>>)
    requires Validated(g, nodes) && ValidEdges(nodes.Keys, es) && GoodParallel(g, nodes, p, FanOut(es, p))
    ensures Surveyed(g, nodes, es, p, regions)
  {
    var out := OutgoingEdges(es, p);
    assert forall e :: e in out ==> e in es && e in FanOut(es, p);
    var r := BranchRegions(out, JoinOf(nodes, p), g, nodes);
    regions := r.value;
  }

  lemma SurveyDecides(g: Graph, nodes: NodeMap, es: seq<EdgeDefinition>, p: Id, regions: seq<set<Id>>, writers: set<Id>)
    requires Surveyed(g, nodes, es, p, regions)
    ensures Apart(regions, writers) <==> SpreadOver(g, nodes, es, p, writers)
  {
    var out :| Lists(out, FanOut(es, p)) && AreRegions(g, out, JoinOf(nodes, p), regions);
    ApartIffSpread(g, nodes, es, p, out, regions, writers);
  }

  method SpreadsOver(writers: set<Id>, p: Id, es: seq<EdgeDefinition>, g: Graph, nodes: NodeMap) returns (ok: bool)
    requires Validated(g, nodes) && ValidEdges(nodes.Keys, es) && GoodParallel(g, nodes, p, FanOut(es, p))
    ensures ok <==> SpreadOver(g, nodes, es, p, writers)
  {
    var regions := SurveyOne(p, es, g, nodes);
    ok := OccupyDistinctRegions(regions, writers);
    SurveyDecides(g, nodes, es, p, regions, writers);
  }

  /** The parallel nodes the writers of a variable spread over. */
  method OwnersOf(v: Variable, ps: seq<Id>, es: seq<EdgeDefinition>, g: Graph, nodes: NodeMap) returns (owners: seq<Id>)
    requires Validated(g, nodes) && ValidEdges(nodes.Keys, es) && StrictlyAscending(ps)
    requires forall p :: p in ps ==> GoodParallel(g, nodes, p, FanOut(es, p))
    ensures forall p :: p in owners <==> p in ps && SpreadOver(g, nodes, es, p, WritersOf(v))
    ensures Distinct(owners)
  {
    owners := [];
    for i := 0 to |ps|
      invariant forall p :: p in owners <==> p in ps[..i] && SpreadOver(g, nodes, es, p, WritersOf(v))
      invariant Distinct(owners)
    {
      assert ps[i] in ps;
      var ok := SpreadsOver(WritersOf(v), ps[i], es, g, nodes);
      NextIsNew(ps, i);
      if ok {
        owners := owners + [ps[i]];
      }
    }
    assert ps[..|ps|] == ps;
  }

  lemma OneOwner(g: Graph, nodes: NodeMap, es: seq<EdgeDefinition>, v: Variable, owners: seq<Id>)
    requires Distinct(owners)
    requires forall p :: p in owners <==> p in ParallelNodes(nodes) && SpreadOver(g, nodes, es, p, WritersOf(v))
    ensures (exists p :: Owner(g, nodes, es, v, p))
       <==> |owners| == 1 && ConfiguredPolicy(nodes, owners[0], v.name) == v.mergePolicy
  {
    assert |owners| >= 2 ==> owners[0] != owners[1];
    if p :| Owner(g, nodes, es, v, p) {
      assert p in owners;
      assert forall i :: 0 <= i < |owners| ==> owners[i] in owners;
      assert forall i :: 0 <= i < |owners| ==> owners[i] == p;
    }
    if |owners| == 1 && ConfiguredPolicy(nodes, owners[0], v.name) == v.mergePolicy {
      assert owners[0] in owners;
      assert forall q :: q in owners ==> q == owners[0];
      assert Owner(g, nodes, es, v, owners[0]);
    }
  }

  method ValidateOwner(v: Variable, ps: seq<Id>, es: seq<EdgeDefinition>, g: Graph,
                       nodes: NodeMap) returns (r: Result<()>)
    requires Validated(g, nodes) && ValidEdges(nodes.Keys, es) && StrictlyAscending(ps)
    requires forall p :: p in ps <==> p in ParallelNodes(nodes)
    requires forall p :: p in ps ==> GoodParallel(g, nodes, p, FanOut(es, p))
    ensures r.Ok? <==> Owned(g, nodes, es, v)
    ensures r.Err? ==>
      r.error.InvalidParallelMergeContributorOwnership? || r.error.ParallelMergeContributorPolicyMismatch?
  {
    if v.contributors == {} {
      return Ok(());
    }
    var owners := OwnersOf(v, ps, es, g, nodes);
    OneOwner(g, nodes, es, v, owners);
    if |owners| != 1 {
      return Err(InvalidParallelMergeContributorOwnership(v.name));
    }
    if ConfiguredPolicy(nodes, owners[0], v.name) != v.mergePolicy {
      return Err(ParallelMergeContributorPolicyMismatch(v.name, owners[0]));
    }
    return Ok(());
  }

  ghost predicate AllOwned(g: Graph, nodes: NodeMap, es: seq<EdgeDefinition>, variables: VariableMap, names: seq<Id>) {
    forall n :: n in names && n in variables ==> Owned(g, nodes, es, variables[n])
  }

  lemma AllOwnedNext(g: Graph, nodes: NodeMap, es: seq<EdgeDefinition>, variables: VariableMap, names: seq<Id>, i: nat)
    requires i < |names| && names[i] in variables && AllOwned(g, nodes, es, variables, names[..i])
    ensures Owned(g, nodes, es, variables[names[i]]) <==> AllOwned(g, nodes, es, variables, names[..i + 1])
  {
    assert names[..i + 1] == names[..i] + [names[i]];
  }

  method ValidateOwnership(variables: VariableMap, es: seq<EdgeDefinition>, g: Graph,
                           nodes: NodeMap) returns (r: Result<()>)
    requires Validated(g, nodes) && ValidEdges(nodes.Keys, es)
    requires forall p :: p in ParallelNodes(nodes) ==> GoodParallel(g, nodes, p, FanOut(es, p))
    ensures r.Ok? <==> forall n :: n in variables ==> Owned(g, nodes, es, variables[n])
    ensures r.Err? ==>
      r.error.InvalidParallelMergeContributorOwnership? || r.error.ParallelMergeContributorPolicyMismatch?
  {
    var ps := Ascending(ParallelNodes(nodes));
    var names := Ascending(variables.Keys);
    for i := 0 to |names|
      invariant AllOwned(g, nodes, es, variables, names[..i])
    {
      assert names[i] in names;
      var one := ValidateOwner(variables[names[i]], ps, es, g, nodes);
      AllOwnedNext(g, nodes, es, variables, names, i);
      if one.Err? {
        return one;
      }
    }
    assert names[..|names|] == names;
    return Ok(());
  }

  // ---------------------------------------------------------------- main result

  ghost predicate InDifferentBranches(g: Graph, fan: set<EdgeDefinition>, join: Id, x: Id, y: Id) {
    exists e, f | e in fan && f in fan && e != f :: x in Region(g, e.to, join) && y in Region(g, f.to, join)
  }

  /** Writer discipline: two different nodes that write one variable are among its producer and
      contributors and lie in different branches of one parallel node, the only one its writers
      spread over, which merges by the declared policy. */
  lemma WriterDiscipline(g: Graph, nodes: NodeMap, es: seq<EdgeDefinition>, variables: VariableMap, v: Id, x: Id, y: Id)
    returns (p: Id)
    requires WritersDeclared(nodes, variables)
    requires forall n :: n in variables ==> variables[n].name == n && Owned(g, nodes, es, variables[n])
    requires Writes(nodes, x, v) && Writes(nodes, y, v) && x != y
    ensures v in variables && {x, y} <= WritersOf(variables[v])
    ensures Owner(g, nodes, es, variables[v], p)
    ensures InDifferentBranches(g, FanOut(es, p), JoinOf(nodes, p), x, y)
    ensures ConfiguredPolicy(nodes, p, v).Some? && ConfiguredPolicy(nodes, p, v) == variables[v].mergePolicy
  {
    assert GoodWrite(variables, x, v) && GoodWrite(variables, y, v);
    SharedWritesAreMerged(nodes, variables, v, x, y);
    assert x in variables[v].contributors || y in variables[v].contributors;
    assert Owned(g, nodes, es, variables[v]);
    p :| Owner(g, nodes, es, variables[v], p);
    var join := JoinOf(nodes, p);
    assert x in WritersOf(variables[v]) && y in WritersOf(variables[v]);
    var e :| e in FanOut(es, p) && x in Region(g, e.to, join);
    var f :| f in FanOut(es, p) && y in Region(g, f.to, join);
  }
}
