/** Cycle validation: after removing loop nodes the graph must sort, so loop bounds bound every walk. */
module GraphCycles {
  import opened Ordered
  import opened Digraph
  import opened GraphModel

  // ---------------------------------------------------------------- loop bounds

  /** Loop nodes carry a positive bound within the limit; other nodes carry none. */
  predicate ValidLoopBound(n: Node, limit: nat) {
    if n.kind.Loop? then n.maxIterations.Some? && 0 < n.maxIterations.value <= limit
    else n.maxIterations.None?
  }

  method ValidateLoopBound(n: Node, limit: nat) returns (r: Result<()>)
    ensures r.Ok? <==> ValidLoopBound(n, limit)
    ensures r.Err? ==> r.error.InvalidLoopBound? || r.error.LoopBoundOnNonLoop?
    ensures r.Err? ==> (r.error.InvalidLoopBound? <==> n.kind.Loop?)
  {
    if n.kind.Loop? {
      if n.maxIterations.None? || n.maxIterations.value == 0 || n.maxIterations.value > limit {
        return Err(InvalidLoopBound(n.id));
      }
    } else if n.maxIterations.Some? {
      return Err(LoopBoundOnNonLoop(n.id));
    }
    return Ok(());
  }

  // ---------------------------------------------------------------- the loop-free part

  function LoopNodes(nodes: NodeMap): set<Id> {
    set x | x in nodes && nodes[x].kind.Loop?
  }

  /** The graph without its loop nodes. */
  function LoopFree(g: Graph, loops: set<Id>): Graph {
    map a | a in g && a !in loops :: g[a] - loops
  }

  lemma LoopFreeIsClosed(g: Graph, loops: set<Id>)
    requires Closed(g)
    ensures Closed(LoopFree(g, loops))
  {
    forall a, b | Edge(LoopFree(g, loops), a, b) ensures b in LoopFree(g, loops) {
      assert Edge(g, a, b);
    }
  }

  /** Every directed cycle passes through a loop node. */
  ghost predicate CyclesAreLooped(g: Graph, loops: set<Id>) {
    forall c :: IsCycle(g, c) ==> exists x :: x in c && x in loops
  }

  lemma WalkAvoidingLoops(g: Graph, loops: set<Id>, p: seq<Id>)
    requires Closed(g) && IsWalk(g, p) && p[0] in g && forall x :: x in p ==> x !in loops
    ensures IsWalk(LoopFree(g, loops), p) && Within(p, LoopFree(g, loops).Keys)
  {
    var h := LoopFree(g, loops);
    ClosedContainsWalk(g, g.Keys, p);
    forall i, j | 0 <= i < j < |p| && j == i + 1 ensures Edge(h, p[i], p[j]) {
      assert Edge(g, p[i], p[j]);
    }
  }

  lemma CycleInside(g: Graph, loops: set<Id>, c: seq<Id>)
    requires IsCycle(LoopFree(g, loops), c)
    ensures IsCycle(g, c) && forall x :: x in c ==> x !in loops
  {
    var h := LoopFree(g, loops);
    forall i, j | 0 <= i < j < |c| && j == i + 1 ensures Edge(g, c[i], c[j]) {
      assert Edge(h, c[i], c[j]);
    }
    forall i | 0 <= i < |c| ensures c[i] !in loops {
      var k := if i < |c| - 1 then i else 0;
      assert Edge(h, c[k], c[k + 1]);
    }
  }

  /** Only the loop-free part matters: looped cycles are the absence of cycles there. */
  lemma LoopedIffLoopFreeAcyclic(g: Graph, loops: set<Id>)
    requires Closed(g)
    ensures CyclesAreLooped(g, loops) <==> forall c :: !IsCycle(LoopFree(g, loops), c)
  {
    if CyclesAreLooped(g, loops) {
      forall c ensures !IsCycle(LoopFree(g, loops), c) {
        if IsCycle(LoopFree(g, loops), c) {
          CycleInside(g, loops, c);
        }
      }
    }
    if forall c :: !IsCycle(LoopFree(g, loops), c) {
      forall c | IsCycle(g, c) ensures exists x :: x in c && x in loops {
        if forall x :: x in c ==> x !in loops {
          assert Edge(g, c[0], c[1]);
          WalkAvoidingLoops(g, loops, c);
          assert IsCycle(LoopFree(g, loops), c);
        }
      }
    }
  }

  // ---------------------------------------------------------------- counting sort

  /** Counts every loop-free node's predecessors among the nodes counted so far. */
  ghost predicate CountedFrom(h: Graph, counted: set<Id>, incoming: map<Id, nat>) {
    && incoming.Keys == h.Keys
    && forall b :: b in h ==> incoming[b] == |Sources(h, counted, b)|
  }

  ghost predicate CountedPrefix(h: Graph, counted: set<Id>, sources: seq<Id>, i: nat)
    requires i <= |sources|
  {
    forall x :: x in counted <==> x in h && x in sources[..i]
  }

  /** Counts, for every loop-free node, the loop-free nodes pointing at it. */
  method CountIncoming(g: Graph, loops: set<Id>) returns (incoming: map<Id, nat>)
    requires Closed(g)
    ensures Counted(LoopFree(g, loops), incoming)
  {
    ghost var h := LoopFree(g, loops);
    incoming := map x | x in g && x !in loops :: 0;
    assert incoming == map x | x in h :: 0;
    LoopFreeIsClosed(g, loops);
    var sources := Ascending(g.Keys);
    ghost var counted: set<Id> := {};
    NothingCounted(h, incoming);
    for i := 0 to |sources|
      invariant CountedFrom(h, counted, incoming) && CountedPrefix(h, counted, sources, i)
    {
      var a := sources[i];
      assert a in sources;
      NextSource(h, counted, sources, i);
      if a !in loops {
        TargetsInside(h, a);
        incoming := AddTargets(h, counted, a, incoming, g[a] - loops);
        counted := counted + {a};
      }
    }
    AllCounted(g, loops, counted, sources, incoming);
  }

  lemma NothingCounted(h: Graph, incoming: map<Id, nat>)
    requires incoming == map x | x in h :: 0
    ensures CountedFrom(h, {}, incoming)
  {
    assert forall b :: b in h ==> Sources(h, {}, b) == {};
  }

  lemma TargetsInside(h: Graph, a: Id)
    requires Closed(h) && a in h
    ensures h[a] <= h.Keys
  {
    forall t | t in h[a] ensures t in h {
      assert Edge(h, a, t);
    }
  }

  lemma AllCounted(g: Graph, loops: set<Id>, counted: set<Id>, sources: seq<Id>, incoming: map<Id, nat>)
    requires sources == Ascending(g.Keys) && CountedPrefix(LoopFree(g, loops), counted, sources, |sources|)
    requires CountedFrom(LoopFree(g, loops), counted, incoming)
    ensures Counted(LoopFree(g, loops), incoming)
  {
    assert sources[..|sources|] == sources;
    assert counted == LoopFree(g, loops).Keys;
  }

  lemma NextSource(h: Graph, counted: set<Id>, sources: seq<Id>, i: nat)
    requires i < |sources| && StrictlyAscending(sources) && CountedPrefix(h, counted, sources, i)
    ensures sources[i] !in counted
    ensures CountedPrefix(h, if sources[i] in h then counted + {sources[i]} else counted, sources, i + 1)
  {
    LessIsTotal();
    assert sources[..i + 1] == sources[..i] + [sources[i]];
  }

  /** Every count is raised by one for the listed ids. */
  ghost predicate Raised(incoming: map<Id, nat>, done: seq<Id>, incoming': map<Id, nat>) {
    && incoming'.Keys == incoming.Keys
    && forall b :: b in incoming ==> incoming'[b] == incoming[b] + (if b in done then 1 else 0)
  }

  lemma RaiseNext(incoming: map<Id, nat>, done: seq<Id>, incoming': map<Id, nat>, x: Id)
    requires Raised(incoming, done, incoming') && x in incoming && x !in done
    ensures Raised(incoming, done + [x], incoming'[x := incoming'[x] + 1])
  {
  }

  lemma RaisedCounts(h: Graph, counted: set<Id>, a: Id, incoming: map<Id, nat>, done: seq<Id>, incoming': map<Id, nat>)
    requires a in h && a !in counted && CountedFrom(h, counted, incoming)
    requires Raised(incoming, done, incoming') && forall b :: b in done <==> b in h[a]
    ensures CountedFrom(h, counted + {a}, incoming')
  {
    assert counted + {a} - {a} == counted;
    forall b | b in h ensures incoming'[b] == |Sources(h, counted + {a}, b)| {
      SourcesAfterRemoval(h, counted + {a}, a, b);
    }
  }

  method AddTargets(ghost h: Graph, ghost counted: set<Id>, ghost a: Id, incoming: map<Id, nat>, targets: set<Id>)
    returns (incoming': map<Id, nat>)
    requires a in h && a !in counted && targets == h[a] && targets <= h.Keys
    requires CountedFrom(h, counted, incoming)
    ensures CountedFrom(h, counted + {a}, incoming')
  {
    incoming' := incoming;
    var order := Ascending(targets);
    for i := 0 to |order|
      invariant Raised(incoming, order[..i], incoming')
    {
      NextIsNew(order, i);
      assert order[i] in order;
      RaiseNext(incoming, order[..i], incoming', order[i]);
      incoming' := incoming'[order[i] := incoming'[order[i]] + 1];
    }
    assert order[..|order|] == order;
    RaisedCounts(h, counted, a, incoming, order, incoming');
  }

  ghost predicate ReadyIds(g: Graph, placed: seq<Id>, incoming: map<Id, nat>, ready: set<Id>) {
    && incoming.Keys == g.Keys
    && forall h :: h in ready <==> h in g && h !in placed && incoming[h] == 0
  }

  ghost predicate Lowered(targets: set<Id>, incoming: map<Id, nat>, ready: set<Id>,
                          incoming': map<Id, nat>, ready': set<Id>) {
    && incoming'.Keys == incoming.Keys
    && (forall b :: b in incoming ==> incoming'[b] + (if b in targets then 1 else 0) == incoming[b])
    && forall h :: h in ready' <==> h in ready || (h in targets && h in incoming' && incoming'[h] == 0)
  }

  /** Lowers the count of every target and makes ready those that reach zero. */
  method ReleaseTargets(targets: set<Id>, incoming: map<Id, nat>, ready: set<Id>)
    returns (incoming': map<Id, nat>, ready': set<Id>)
    requires forall t :: t in targets ==> t in incoming && incoming[t] > 0
    ensures Lowered(targets, incoming, ready, incoming', ready')
  {
    incoming', ready' := incoming, ready;
    var order := Ascending(targets);
    for i := 0 to |order|
      invariant incoming'.Keys == incoming.Keys
      invariant forall b :: b in incoming ==> incoming'[b] + (if b in order[..i] then 1 else 0) == incoming[b]
      invariant forall h :: h in ready' <==> h in ready || (h in order[..i] && incoming[h] == 1)
    {
      var t := order[i];
      NextIsNew(order, i);
      assert t in order;
      incoming' := incoming'[t := incoming'[t] - 1];
      if incoming'[t] == 0 {
        ready' := ready' + {t};
      }
    }
    assert order[..|order|] == order;
  }

  /** What the sorting loop keeps: the placed nodes are listed forward and counts are current. */
  ghost predicate SortState(h: Graph, placed: seq<Id>, incoming: map<Id, nat>, ready: set<Id>) {
    && Distinct(placed) && Elements(placed) <= h.Keys
    && Forward(h, placed)
    && SourcesInside(h, placed)
    && Remaining(h, placed, incoming)
    && ReadyIds(h, placed, incoming, ready)
  }

  /** The predecessors of every placed node are placed. */
  ghost predicate SourcesInside(h: Graph, placed: seq<Id>) {
    forall b :: b in placed ==> Sources(h, h.Keys, b) <= Elements(placed)
  }

  lemma SourcesStayInside(h: Graph, placed: seq<Id>, x: Id)
    requires SourcesInside(h, placed) && Sources(h, h.Keys, x) <= Elements(placed)
    ensures SourcesInside(h, placed + [x]) && Elements(placed + [x]) == Elements(placed) + {x}
  {
    assert Elements(placed + [x]) == Elements(placed) + {x};
  }

  lemma SortTargets(h: Graph, placed: seq<Id>, incoming: map<Id, nat>, ready: set<Id>, x: Id)
    requires Closed(h) && SortState(h, placed, incoming, ready) && x in ready
    ensures x in h && forall t :: t in h[x] ==> t in incoming && incoming[t] > 0 && t !in placed && t != x
  {
    forall t | t in h[x] ensures t in incoming && incoming[t] > 0 && t !in placed && t != x {
      assert Edge(h, x, t);
      TargetsAreCounted(h, placed, incoming, x, t);
      assert x in Sources(h, h.Keys, t);
    }
  }

  lemma ReadyAfter(h: Graph, placed: seq<Id>, incoming: map<Id, nat>, ready: set<Id>, x: Id,
                   incoming': map<Id, nat>, ready': set<Id>)
    requires ReadyIds(h, placed, incoming, ready) && x in ready
    requires forall t :: t in h[x] ==> t in incoming && t !in placed && t != x
    requires Lowered(h[x], incoming, ready - {x}, incoming', ready')
    ensures ReadyIds(h, placed + [x], incoming', ready')
  {
    forall y | y in h && y !in placed + [x] && incoming'[y] == 0 ensures y in ready' {
      if y !in h[x] { assert incoming[y] == 0; }
    }
  }

  lemma SortStep(h: Graph, placed: seq<Id>, incoming: map<Id, nat>, ready: set<Id>, x: Id,
                 incoming': map<Id, nat>, ready': set<Id>)
    requires Closed(h) && SortState(h, placed, incoming, ready) && x in ready
    requires x in h && Lowered(h[x], incoming, ready - {x}, incoming', ready')
    ensures SortState(h, placed + [x], incoming', ready')
    ensures Elements(placed + [x]) == Elements(placed) + {x}
  {
    SortTargets(h, placed, incoming, ready, x);
    PlaceKeepsRemaining(h, placed, incoming, incoming', x);
    SourcesPlaced(h, placed, incoming, x);
    SourcesStayInside(h, placed, x);
    ForwardExtends(h, placed, x);
    ReadyAfter(h, placed, incoming, ready, x, incoming', ready');
  }

  /** A ready node has all its predecessors placed. */
  lemma SourcesPlaced(h: Graph, placed: seq<Id>, incoming: map<Id, nat>, x: Id)
    requires Remaining(h, placed, incoming) && x in h && incoming[x] == 0
    ensures Sources(h, h.Keys, x) <= Elements(placed)
  {
    SourcesPositive(h, h.Keys - Elements(placed), x);
  }

  lemma ForwardExtends(h: Graph, placed: seq<Id>, x: Id)
    requires Forward(h, placed) && Distinct(placed) && x !in placed
    requires Sources(h, h.Keys, x) <= Elements(placed)
    requires SourcesInside(h, placed)
    ensures Forward(h, placed + [x]) && Distinct(placed + [x])
  {
    var order := placed + [x];
    forall i, j | 0 <= i < |order| && 0 <= j < |order| && Edge(h, order[i], order[j]) ensures i < j {
      assert order[i] in Sources(h, h.Keys, order[j]);
    }
  }

  method SortLoopFree(g: Graph, loops: set<Id>) returns (processed: nat, incoming: map<Id, nat>, ghost placed: seq<Id>)
    requires Closed(g)
    ensures SortState(LoopFree(g, loops), placed, incoming, {})
    ensures processed == |placed|
  {
    ghost var h := LoopFree(g, loops);
    LoopFreeIsClosed(g, loops);
    incoming := CountIncoming(g, loops);
    var ready := set x | x in incoming && incoming[x] == 0;
    processed, placed := 0, [];
    assert h.Keys - Elements([]) == h.Keys;
    while ready != {}
      invariant SortState(h, placed, incoming, ready)
      invariant processed == |placed|
      decreases h.Keys - Elements(placed)
    {
      var x := Least(ready);
      SortTargets(h, placed, incoming, ready, x);
      var incoming', ready' := ReleaseTargets(g[x] - loops, incoming, ready - {x});
      SortStep(h, placed, incoming, ready, x, incoming', ready');
      processed, placed, incoming, ready := processed + 1, placed + [x], incoming', ready';
    }
  }

  /** Accepts exactly the graphs in which every directed cycle contains a loop node; the nodes it
      reports otherwise hold a cycle without one. */
  method ValidateCycles(g: Graph, nodes: NodeMap) returns (r: Result<()>)
    requires Closed(g) && g.Keys == nodes.Keys
    ensures r.Ok? <==> CyclesAreLooped(g, LoopNodes(nodes))
    ensures r.Err? ==> r.error.IllegalCycle? && r.error.nodes !! LoopNodes(nodes)
                       && exists c :: IsCycle(g, c) && Within(c, r.error.nodes)
  {
    var loops := LoopNodes(nodes);
    ghost var h := LoopFree(g, loops);
    var processed, incoming, placed := SortLoopFree(g, loops);
    LoopedIffLoopFreeAcyclic(g, loops);
    DistinctLength(placed);
    SubsetSize(Elements(placed), h.Keys);
    assert incoming.Keys == h.Keys;
    if processed == |incoming| {
      SortedMeansAcyclic(h, placed);
      return Ok(());
    }
    var stuck := Counting(incoming);
    UnsortedMeansCyclic(h, placed, incoming, stuck);
    ghost var c :| IsCycle(h, c) && Within(c, stuck);
    CycleInside(g, loops, c);
    return Err(IllegalCycle(stuck));
  }

  lemma SortedMeansAcyclic(h: Graph, placed: seq<Id>)
    requires Forward(h, placed) && Distinct(placed) && Elements(placed) == h.Keys
    ensures forall c :: !IsCycle(h, c)
  {
    forall c ensures !IsCycle(h, c) {
      if IsCycle(h, c) {
        forall i | 0 <= i < |c| ensures c[i] in h.Keys {
          var k := if i < |c| - 1 then i else 0;
          assert Edge(h, c[k], c[k + 1]);
        }
        ForwardBoundsWalks(h, placed, c);
      }
    }
  }

  lemma UnsortedMeansCyclic(h: Graph, placed: seq<Id>, incoming: map<Id, nat>, stuck: set<Id>)
    requires SortState(h, placed, incoming, {}) && Elements(placed) != h.Keys
    requires stuck == Counting(incoming)
    ensures exists c :: IsCycle(h, c) && Within(c, stuck)
  {
    forall x | x in h ensures incoming[x] == 0 <==> x in placed {
      if x in placed {
        SourcesPositive(h, h.Keys - Elements(placed), x);
        assert Sources(h, h.Keys - Elements(placed), x) <= Sources(h, h.Keys, x);
      }
    }
    StuckMeansCycle(h, placed, incoming, stuck);
  }

  // ---------------------------------------------------------------- bounded walks

  function Visits(p: seq<Id>, x: Id): nat {
    if p == [] then 0 else Visits(p[..|p| - 1], x) + (if p[|p| - 1] == x then 1 else 0)
  }

  /** How many positions of the walk hold a loop node. */
  function LoopVisits(p: seq<Id>, loops: set<Id>): nat {
    if p == [] then 0 else LoopVisits(p[..|p| - 1], loops) + (if p[|p| - 1] in loops then 1 else 0)
  }

  ghost function Total(s: set<Id>, f: Id -> nat): nat
    decreases |s|
  {
    if s == {} then 0 else
      var x := Least(s);
      f(x) + Total(s - {x}, f)
  }

  lemma {:induction false} TotalMonotone(s: set<Id>, f: Id -> nat, h: Id -> nat)
    requires forall x :: x in s ==> f(x) <= h(x)
    ensures Total(s, f) <= Total(s, h)
    decreases |s|
  {
    if s == {} {
    } else {
      TotalMonotone(s - {Least(s)}, f, h);
    }
  }

  lemma {:induction false} TotalIncrement(s: set<Id>, f: Id -> nat, h: Id -> nat, x: Id)
    requires forall y :: y in s ==> h(y) == f(y) + (if y == x then 1 else 0)
    ensures Total(s, h) == Total(s, f) + (if x in s then 1 else 0)
    decreases |s|
  {
    if s == {} {
    } else {
      TotalIncrement(s - {Least(s)}, f, h, x);
    }
  }

  lemma {:induction false} TotalZero(s: set<Id>, f: Id -> nat)
    requires forall y :: y in s ==> f(y) == 0
    ensures Total(s, f) == 0
    decreases |s|
  {
    if s == {} {
    } else {
      TotalZero(s - {Least(s)}, f);
    }
  }

  /** The visits to loop nodes are the visits to each of them, added up. */
  lemma {:induction false} LoopVisitsAddUp(p: seq<Id>, loops: set<Id>)
    ensures LoopVisits(p, loops) == Total(loops, x => Visits(p, x))
  {
    if p == [] {
      TotalZero(loops, x => Visits(p, x));
    } else {
      var q := p[..|p| - 1];
      LoopVisitsAddUp(q, loops);
      TotalIncrement(loops, x => Visits(q, x), x => Visits(p, x), p[|p| - 1]);
    }
  }

  lemma {:induction false} LoopVisitsZero(p: seq<Id>, loops: set<Id>)
    ensures LoopVisits(p, loops) == 0 <==> forall x :: x in p ==> x !in loops
  {
    if p == [] {
    } else {
      var q := p[..|p| - 1];
      LoopVisitsZero(q, loops);
      assert p == q + [p[|p| - 1]];
    }
  }

  lemma {:induction false} LoopVisitsSplit(p: seq<Id>, loops: set<Id>, k: nat)
    requires k <= |p|
    ensures LoopVisits(p, loops) == LoopVisits(p[..k], loops) + LoopVisits(p[k..], loops)
    decreases |p|
  {
    if k == |p| {
      assert p[..k] == p;
    } else {
      var n := |p| - 1;
      LoopVisitsSplit(p[..n], loops, k);
      assert p[..n][..k] == p[..k] && p[..n][k..] == p[k..][..n - k];
    }
  }

  /** At most `l` loop visits, and `l + 1` stretches of at most `m` nodes between them. */
  predicate Fits(length: nat, l: nat, m: nat) {
    length <= l + (l + 1) * m
  }

  /** A stretch without loop nodes is no longer than the loop-free part of the graph. */
  lemma FreeStretch(g: Graph, loops: set<Id>, order: seq<Id>, p: seq<Id>)
    requires Closed(g) && Forward(LoopFree(g, loops), order) && Distinct(order)
    requires Elements(order) == LoopFree(g, loops).Keys
    requires p == [] || (IsWalk(g, p) && p[0] in g)
    requires forall x :: x in p ==> x !in loops
    ensures |p| <= |order|
  {
    if p != [] {
      WalkAvoidingLoops(g, loops, p);
      ForwardBoundsWalks(LoopFree(g, loops), order, p);
    }
  }

  /** A walk is cut by its loop visits into loop-free stretches, each no longer than the loop-free part. */
  lemma {:induction false} StretchBound(g: Graph, loops: set<Id>, order: seq<Id>, p: seq<Id>)
    requires Closed(g) && Forward(LoopFree(g, loops), order) && Distinct(order)
    requires Elements(order) == LoopFree(g, loops).Keys
    requires p == [] || (IsWalk(g, p) && p[0] in g)
    ensures Fits(|p|, LoopVisits(p, loops), |order|)
    decreases |p|
  {
    LoopVisitsZero(p, loops);
    if LoopVisits(p, loops) == 0 {
      FreeStretch(g, loops, order, p);
    } else {
      var k := LastLoop(p, loops);
      WalkPieces(g, p, k);
      StretchBound(g, loops, order, p[..k]);
      FreeStretch(g, loops, order, p[k + 1..]);
      VisitsAtLastLoop(p, loops, k);
      CountPieces(k, |p|, LoopVisits(p, loops), |order|);
    }
  }

  lemma WalkPieces(g: Graph, p: seq<Id>, k: nat)
    requires Closed(g) && IsWalk(g, p) && p[0] in g && k < |p|
    ensures p[..k] == [] || (IsWalk(g, p[..k]) && p[..k][0] in g)
    ensures p[k + 1..] == [] || (IsWalk(g, p[k + 1..]) && p[k + 1..][0] in g)
  {
    ClosedContainsWalk(g, g.Keys, p);
    if k > 0 {
      SubWalk(g, p, 0, k);
    }
    if k + 1 < |p| {
      SubWalk(g, p, k + 1, |p|);
    }
  }

  lemma VisitsAtLastLoop(p: seq<Id>, loops: set<Id>, k: nat)
    requires k < |p| && p[k] in loops && forall x :: x in p[k + 1..] ==> x !in loops
    ensures LoopVisits(p, loops) == LoopVisits(p[..k], loops) + 1
  {
    LoopVisitsSplit(p, loops, k + 1);
    LoopVisitsZero(p[k + 1..], loops);
    assert p[..k + 1][..k] == p[..k];
  }

  lemma LastLoop(p: seq<Id>, loops: set<Id>) returns (k: nat)
    requires exists x :: x in p && x in loops
    ensures k < |p| && p[k] in loops && forall x :: x in p[k + 1..] ==> x !in loops
  {
    k := |p| - 1;
    while p[k] !in loops
      invariant k < |p| && (exists x :: x in p[..k + 1] && x in loops) && forall x :: x in p[k + 1..] ==> x !in loops
      decreases k
    {
      assert p[..k + 1] == p[..k] + [p[k]];
      assert p[k..] == [p[k]] + p[k + 1..];
      k := k - 1;
    }
  }

  lemma CountPieces(k: nat, length: nat, n: nat, m: nat)
    requires k < length && n >= 1
    requires Fits(k, n - 1, m) && length - k - 1 <= m
    ensures Fits(length, n, m)
  {
    assert (n + 1) * m == n * m + m;
  }

  lemma LoopVisitsBounded(p: seq<Id>, loops: set<Id>, bound: Id -> nat)
    requires forall x :: x in loops ==> Visits(p, x) <= bound(x)
    ensures LoopVisits(p, loops) <= Total(loops, bound)
  {
    LoopVisitsAddUp(p, loops);
    TotalMonotone(loops, x => Visits(p, x), bound);
  }

  /** Iterating each loop node at most its bound leaves every walk finite: with S the sum of the
      bounds and N the number of other nodes, a walk has at most S + (S + 1) * N nodes. */
  lemma IterationsBoundWalks(g: Graph, nodes: NodeMap, bound: Id -> nat, p: seq<Id>)
    requires Closed(g) && g.Keys == nodes.Keys && CyclesAreLooped(g, LoopNodes(nodes))
    requires IsWalk(g, p) && p[0] in g
    requires forall x :: x in LoopNodes(nodes) ==> Visits(p, x) <= bound(x)
    ensures Fits(|p|, Total(LoopNodes(nodes), bound), |g.Keys - LoopNodes(nodes)|)
  {
    var loops := LoopNodes(nodes);
    var h := LoopFree(g, loops);
    var order := OrderOfLoopFree(g, loops);
    assert h.Keys == g.Keys - loops;
    DistinctLength(order);
    assert |order| == |g.Keys - loops|;
    StretchBound(g, loops, order, p);
    LoopVisitsBounded(p, loops, bound);
    Widen(LoopVisits(p, loops), Total(loops, bound), |order|, |p|);
  }

  lemma OrderOfLoopFree(g: Graph, loops: set<Id>) returns (order: seq<Id>)
    requires Closed(g) && CyclesAreLooped(g, loops)
    ensures Forward(LoopFree(g, loops), order) && Distinct(order) && Elements(order) == LoopFree(g, loops).Keys
  {
    LoopedIffLoopFreeAcyclic(g, loops);
    order := ForwardOrder(LoopFree(g, loops), LoopFree(g, loops).Keys);
  }

  /** Without cycles, some live node has no live predecessor. */
  lemma FreeNode(h: Graph, live: set<Id>) returns (x: Id)
    requires live != {} && forall c :: !IsCycle(h, c)
    ensures x in live && Sources(h, live, x) == {}
  {
    if forall b :: b in live ==> |Sources(h, live, b)| > 0 {
      var c := PredecessorsGiveCycle(h, live);
      assert false;
    }
    x :| x in live && |Sources(h, live, x)| == 0;
  }

  lemma ForwardPrepends(h: Graph, x: Id, rest: seq<Id>)
    requires Forward(h, rest) && Distinct(rest) && x !in rest
    requires forall b :: b in rest ==> !Edge(h, b, x)
    requires !Edge(h, x, x)
    ensures Forward(h, [x] + rest) && Distinct([x] + rest) && Elements([x] + rest) == {x} + Elements(rest)
  {
    var order := [x] + rest;
    forall i, j | 0 <= i < |order| && 0 <= j < |order| && Edge(h, order[i], order[j]) ensures i < j {
      assert i == 0 || order[i] in rest;
    }
  }

  /** A graph without cycles can be listed forward. */
  lemma {:induction false} ForwardOrder(h: Graph, live: set<Id>) returns (order: seq<Id>)
    requires forall c :: !IsCycle(h, c)
    ensures Forward(h, order) && Distinct(order) && Elements(order) == live
    decreases |live|
  {
    if live == {} {
      order := [];
    } else {
      var x := FreeNode(h, live);
      var rest := ForwardOrder(h, live - {x});
      assert forall b :: b in live && Edge(h, b, x) ==> b in Sources(h, live, x);
      assert forall b :: b in rest ==> b in Elements(rest);
      ForwardPrepends(h, x, rest);
      order := [x] + rest;
    }
  }

  lemma Widen(l: nat, s: nat, n: nat, length: nat)
    requires l <= s && Fits(length, l, n)
    ensures Fits(length, s, n)
  {
    assert (l + 1) * n <= (s + 1) * n;
  }
}
