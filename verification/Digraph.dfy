/** Directed graphs over identifiers: walks, cycles, topological certificates and indegrees. */
module Digraph {
  import opened Ordered

  type Graph = map<Id, set<Id>>

  predicate Edge(g: Graph, a: Id, b: Id) {
    a in g && b in g[a]
  }

  ghost predicate IsWalk(g: Graph, p: seq<Id>) {
    && |p| > 0
    && forall i, j :: 0 <= i < j < |p| && j == i + 1 ==> Edge(g, p[i], p[j])
  }

  /** A walk of at least one edge whose first node equals its last. */
  ghost predicate IsCycle(g: Graph, p: seq<Id>) {
    |p| >= 2 && IsWalk(g, p) && p[0] == p[|p| - 1]
  }

  ghost predicate Within(p: seq<Id>, s: set<Id>) {
    forall i :: 0 <= i < |p| ==> p[i] in s
  }

  ghost predicate WalkFromTo(g: Graph, p: seq<Id>, a: Id, b: Id) {
    IsWalk(g, p) && p[0] == a && p[|p| - 1] == b
  }

  ghost predicate Reachable(g: Graph, a: Id, b: Id) {
    exists p :: WalkFromTo(g, p, a, b)
  }

  ghost predicate Distinct(p: seq<Id>) {
    forall i, j :: 0 <= i < j < |p| ==> p[i] != p[j]
  }

  function Elements(p: seq<Id>): (s: set<Id>)
    ensures forall x :: x in s <==> x in p
  {
    set x | x in p
  }

  lemma WalkConcat(g: Graph, p: seq<Id>, q: seq<Id>)
    requires IsWalk(g, p) && IsWalk(g, q) && p[|p| - 1] == q[0]
    ensures IsWalk(g, p + q[1..])
    ensures (p + q[1..])[|p + q[1..]| - 1] == q[|q| - 1]
  {
    var w := p + q[1..];
    forall i, j | 0 <= i < j < |w| && j == i + 1
      ensures Edge(g, w[i], w[j])
    {
      if j < |p| {
      } else {
        assert w[i] == q[i - |p| + 1];
        assert w[j] == q[j - |p| + 1];
      }
    }
  }

  lemma SubWalk(g: Graph, p: seq<Id>, i: nat, j: nat)
    requires IsWalk(g, p) && i < j <= |p|
    ensures IsWalk(g, p[i..j])
  {
    var w := p[i..j];
    forall a, b | 0 <= a < b < |w| && b == a + 1
      ensures Edge(g, w[a], w[b])
    {
      assert w[a] == p[i + a] && w[b] == p[i + b];
    }
  }

  /** A set that contains the first node of a walk and is closed under edges contains the walk. */
  lemma {:induction false} ClosedContainsWalk(g: Graph, s: set<Id>, p: seq<Id>)
    requires IsWalk(g, p) && p[0] in s
    requires forall a, b :: a in s && Edge(g, a, b) ==> b in s
    ensures Within(p, s)
    decreases |p|
  {
    if |p| == 1 {
    } else {
      var n := |p| - 1;
      SubWalk(g, p, 0, n);
      ClosedContainsWalk(g, s, p[..n]);
      assert p[..n][n - 1] == p[n - 1];
      assert Edge(g, p[n - 1], p[n]);
    }
  }

  // ---------------------------------------------------------------- counting

  lemma {:induction false} DistinctLength(p: seq<Id>)
    requires Distinct(p)
    ensures |Elements(p)| == |p|
    decreases |p|
  {
    if |p| == 0 {
    } else {
      var n := |p| - 1;
      DistinctLength(p[..n]);
      assert Elements(p) == Elements(p[..n]) + {p[n]};
      assert p[n] !in p[..n];
    }
  }

  lemma SubsetSize(a: set<Id>, b: set<Id>)
    requires a <= b
    ensures |a| <= |b|
    ensures |a| == |b| ==> a == b
  {
    assert b == a + (b - a);
    if |a| == |b| {
      assert |b - a| == 0;
    }
  }

  /** Pigeonhole: a sequence longer than the set it lives in repeats an element. */
  lemma Pigeonhole(p: seq<Id>, s: set<Id>) returns (i: nat, j: nat)
    requires Within(p, s) && |p| > |s|
    ensures i < j < |p| && p[i] == p[j]
  {
    if Distinct(p) {
      DistinctLength(p);
      SubsetSize(Elements(p), s);
      assert false;
    }
    i, j :| 0 <= i < j < |p| && p[i] == p[j];
  }

  lemma {:induction false} BackwardWalk(g: Graph, s: set<Id>, n: nat) returns (p: seq<Id>)
    requires s != {}
    requires forall b :: b in s ==> |Sources(g, s, b)| > 0
    ensures IsWalk(g, p) && Within(p, s) && |p| == n + 1
  {
    if n == 0 {
      var x :| x in s;
      p := [x];
    } else {
      var q := BackwardWalk(g, s, n - 1);
      assert q[0] in s;
      assert |Sources(g, s, q[0])| > 0;
      var a :| a in Sources(g, s, q[0]);
      p := [a] + q;
    }
  }

  /** A nonempty finite set in which every node has a predecessor contains a cycle. */
  lemma PredecessorsGiveCycle(g: Graph, s: set<Id>) returns (c: seq<Id>)
    requires s != {}
    requires forall b :: b in s ==> |Sources(g, s, b)| > 0
    ensures IsCycle(g, c) && Within(c, s)
  {
    var p := BackwardWalk(g, s, |s|);
    var i, j := Pigeonhole(p, s);
    SubWalk(g, p, i, j + 1);
    c := p[i..j + 1];
  }

  // ---------------------------------------------------------------- topological certificates

  /** Every edge between listed nodes points forward. */
  ghost predicate Forward(g: Graph, order: seq<Id>) {
    forall i, j :: 0 <= i < |order| && 0 <= j < |order| && Edge(g, order[i], order[j]) ==> i < j
  }

  /** Along a walk through listed nodes the position grows by at least one a step. */
  lemma {:induction false} WalkClimbs(g: Graph, order: seq<Id>, p: seq<Id>) returns (i: nat, j: nat)
    requires Forward(g, order) && Distinct(order)
    requires IsWalk(g, p) && Within(p, Elements(order))
    ensures i < |order| && j < |order| && order[i] == p[0] && order[j] == p[|p| - 1]
    ensures |p| - 1 <= j - i
    decreases |p|
  {
    if |p| == 1 {
      assert p[0] in order;
      i :| 0 <= i < |order| && order[i] == p[0];
      j := i;
    } else {
      var n := |p| - 1;
      SubWalk(g, p, 0, n);
      var k;
      i, k := WalkClimbs(g, order, p[..n]);
      assert p[..n][n - 1] == p[n - 1];
      assert p[n] in order;
      j :| 0 <= j < |order| && order[j] == p[n];
      assert Edge(g, p[n - 1], p[n]);
    }
  }

  /** A forward listing of a set certifies that the set contains no cycle and bounds its walks. */
  lemma ForwardBoundsWalks(g: Graph, order: seq<Id>, p: seq<Id>)
    requires Forward(g, order) && Distinct(order)
    requires IsWalk(g, p) && Within(p, Elements(order))
    ensures !IsCycle(g, p)
    ensures |p| <= |order|
  {
    var i, j := WalkClimbs(g, order, p);
  }

  // ---------------------------------------------------------------- indegrees

  /** The members of `live` with an edge into `b`. */
  function Sources(g: Graph, live: set<Id>, b: Id): set<Id> {
    set a | a in live && Edge(g, a, b)
  }

  /** Removing one node lowers the indegree of exactly its targets, by one. */
  lemma SourcesAfterRemoval(g: Graph, live: set<Id>, x: Id, b: Id)
    requires x in live
    ensures |Sources(g, live - {x}, b)| == |Sources(g, live, b)| - (if Edge(g, x, b) then 1 else 0)
  {
    if Edge(g, x, b) {
      assert Sources(g, live, b) == Sources(g, live - {x}, b) + {x};
    } else {
      assert Sources(g, live, b) == Sources(g, live - {x}, b);
    }
  }

  lemma SourcesPositive(g: Graph, live: set<Id>, b: Id)
    ensures |Sources(g, live, b)| > 0 <==> exists a :: a in live && Edge(g, a, b)
  {
    if a :| a in live && Edge(g, a, b) {
      assert a in Sources(g, live, b);
    }
    if |Sources(g, live, b)| > 0 {
      var a :| a in Sources(g, live, b);
      assert a in live && Edge(g, a, b);
    }
  }

  // ---------------------------------------------------------------- counting sort of a graph

  /** `incoming` holds the indegree of every node. */
  ghost predicate Counted(g: Graph, incoming: map<Id, nat>) {
    && incoming.Keys == g.Keys
    && forall b :: b in incoming ==> incoming[b] == |Sources(g, g.Keys, b)|
  }

  /** Indegrees restricted to the nodes that are not placed yet. */
  ghost predicate Remaining(g: Graph, placed: seq<Id>, incoming: map<Id, nat>) {
    && incoming.Keys == g.Keys
    && forall b :: b in g ==> incoming[b] == |Sources(g, g.Keys - Elements(placed), b)|
  }

  ghost predicate PlacedAreFree(g: Graph, placed: seq<Id>, incoming: map<Id, nat>) {
    forall b :: b in placed ==> b in g && b in incoming && incoming[b] == 0
  }

  lemma PlaceKeepsRemaining(g: Graph, placed: seq<Id>, incoming: map<Id, nat>, incoming': map<Id, nat>, h: Id)
    requires Remaining(g, placed, incoming) && h in g && h !in placed
    requires incoming'.Keys == incoming.Keys
    requires forall b :: b in incoming ==> incoming'[b] + (if b in g[h] then 1 else 0) == incoming[b]
    ensures Remaining(g, placed + [h], incoming')
  {
    var live := g.Keys - Elements(placed);
    assert g.Keys - Elements(placed + [h]) == live - {h};
    forall b | b in g ensures incoming'[b] == |Sources(g, live - {h}, b)| {
      SourcesAfterRemoval(g, live, h, b);
    }
  }

  lemma TargetsAreCounted(g: Graph, placed: seq<Id>, incoming: map<Id, nat>, h: Id, t: Id)
    requires Remaining(g, placed, incoming) && h in g && h !in placed && t in g[h] && t in g
    ensures incoming[t] > 0
  {
    SourcesPositive(g, g.Keys - Elements(placed), t);
    assert Edge(g, h, t);
  }

  /** The nodes whose count is still positive. */
  function Counting(left: map<Id, nat>): set<Id> {
    set x | x in left && left[x] > 0
  }

  lemma StuckMeansCycle(g: Graph, placed: seq<Id>, left: map<Id, nat>, unresolved: set<Id>)
    requires Remaining(g, placed, left) && Elements(placed) <= g.Keys && Elements(placed) != g.Keys
    requires forall h :: h in g ==> (left[h] == 0 <==> h in placed)
    requires unresolved == Counting(left)
    ensures exists c :: IsCycle(g, c) && Within(c, unresolved)
  {
    assert unresolved == g.Keys - Elements(placed);
    forall b | b in unresolved ensures |Sources(g, unresolved, b)| > 0 {
      assert left[b] > 0;
    }
    var x :| x in g.Keys && x !in Elements(placed);
    assert x in unresolved;
    var c := PredecessorsGiveCycle(g, unresolved);
  }
}
