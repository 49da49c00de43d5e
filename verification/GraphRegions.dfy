/** What an accepted parallel node guarantees: its branches are single-entry, single-exit regions. */
module GraphRegions {
  import opened Ordered
  import opened Digraph
  import opened GraphModel
  import opened GraphParallel

  /** An accepted parallel node of a validated graph. */
  ghost predicate AcceptedParallel(g: Graph, nodes: NodeMap, es: seq<EdgeDefinition>, p: Id) {
    && Validated(g, nodes) && IsAdjacency(nodes.Keys, es, g)
    && GoodParallel(g, nodes, p, FanOut(es, p))
  }

  lemma BranchEdge(g: Graph, nodes: NodeMap, es: seq<EdgeDefinition>, p: Id, e: EdgeDefinition)
    requires AcceptedParallel(g, nodes, es, p) && e in FanOut(es, p)
    ensures Edge(g, p, e.to) && e.to != JoinOf(nodes, p)
    ensures e.to in Region(g, e.to, JoinOf(nodes, p))
  {
    assert HasEdge(es, p, e.to);
    assert GoodBranchEdge(e, JoinOf(nodes, p));
    ReachSelf(Without(g, JoinOf(nodes, p)), e.to);
  }

  /** Every edge leaving a region goes to the join. */
  lemma RegionsExitToJoin(g: Graph, branch: Id, join: Id, x: Id, y: Id)
    requires Closed(g) && x in Region(g, branch, join) && Edge(g, x, y)
    ensures y == join || y in Region(g, branch, join)
  {
    if y != join {
      var w := Without(g, join);
      assert Edge(w, x, y);
      ReachStep(w, branch, x, y);
    }
  }

  /** No region contains the parallel node or its join. */
  lemma HeadsAndJoinsAreOutside(g: Graph, nodes: NodeMap, es: seq<EdgeDefinition>, p: Id, e: EdgeDefinition)
    requires AcceptedParallel(g, nodes, es, p) && e in FanOut(es, p)
    ensures p !in Region(g, e.to, JoinOf(nodes, p)) && JoinOf(nodes, p) !in Region(g, e.to, JoinOf(nodes, p))
    ensures p != JoinOf(nodes, p)
  {
    var fan, join := FanOut(es, p), JoinOf(nodes, p);
    if p in Region(g, e.to, join) {
      var f := Another(fan, e);
      BranchEdge(g, nodes, es, p, f);
      RegionsExitToJoin(g, e.to, join, p, f.to);
      assert false;
    }
  }

  lemma Another(fan: set<EdgeDefinition>, e: EdgeDefinition) returns (f: EdgeDefinition)
    requires |fan| >= 2 && e in fan
    ensures f in fan && f != e
  {
    var rest := fan - {e};
    assert |rest| >= 1;
    f :| f in rest;
  }

  /** The only terminal members of a region are failures. */
  lemma RegionsEndOnlyInFailure(g: Graph, nodes: NodeMap, es: seq<EdgeDefinition>, p: Id, e: EdgeDefinition, x: Id)
    requires AcceptedParallel(g, nodes, es, p) && e in FanOut(es, p) && x in Region(g, e.to, JoinOf(nodes, p))
    ensures x in nodes && (IsTerminal(nodes[x].kind) ==> nodes[x].kind.Fail?)
    ensures g[x] == {} ==> nodes[x].kind.Fail?
  {
    assert RegionExits(g, nodes, e.to, JoinOf(nodes, p));
    assert ExitsProperly(g, nodes, x);
  }

  /** The walk passed the parallel node at `j`, entered the branch at its head, and stayed inside. */
  ghost predicate EnteredThrough(g: Graph, p: Id, e: EdgeDefinition, join: Id, q: seq<Id>, j: int, k: int) {
    && 0 <= j < k < |q|
    && q[j] == p && q[j + 1] == e.to
    && forall i :: j < i <= k ==> q[i] in Region(g, e.to, join)
  }

  ghost predicate StartsOutside(g: Graph, fan: set<EdgeDefinition>, join: Id, q: seq<Id>) {
    |q| > 0 && q[0] != join && !InSomeRegion(g, fan, join, q[0])
  }

  /** A walk that starts outside reaches a region member only through the parallel node and that
      branch's own head. */
  lemma {:induction false} SingleEntry(g: Graph, nodes: NodeMap, es: seq<EdgeDefinition>, p: Id, e: EdgeDefinition,
                                       q: seq<Id>, k: nat) returns (j: nat)
    requires AcceptedParallel(g, nodes, es, p) && e in FanOut(es, p)
    requires IsWalk(g, q) && StartsOutside(g, FanOut(es, p), JoinOf(nodes, p), q)
    requires k < |q| && q[k] in Region(g, e.to, JoinOf(nodes, p))
    ensures EnteredThrough(g, p, e, JoinOf(nodes, p), q, j, k)
    decreases k
  {
    var join := JoinOf(nodes, p);
    assert InSomeRegion(g, FanOut(es, p), join, q[k]);
    assert k > 0;
    var s := q[k - 1];
    assert Edge(g, q[k - 1], q[k]);
    if s in Region(g, e.to, join) {
      j := SingleEntry(g, nodes, es, p, e, q, k - 1);
    } else {
      j := k - 1;
    }
  }

  /** A walk that starts outside reaches the join only through the parallel node and one branch. */
  lemma JoinAfterBranch(g: Graph, nodes: NodeMap, es: seq<EdgeDefinition>, p: Id, q: seq<Id>, k: nat)
    returns (e: EdgeDefinition, j: nat)
    requires AcceptedParallel(g, nodes, es, p)
    requires IsWalk(g, q) && StartsOutside(g, FanOut(es, p), JoinOf(nodes, p), q)
    requires k < |q| && q[k] == JoinOf(nodes, p)
    ensures k > 0 && e in FanOut(es, p) && EnteredThrough(g, p, e, JoinOf(nodes, p), q, j, k - 1)
  {
    var fan, join := FanOut(es, p), JoinOf(nodes, p);
    assert Edge(g, q[k - 1], q[k]);
    assert InSomeRegion(g, fan, join, q[k - 1]);
    e :| e in fan && q[k - 1] in Region(g, e.to, join);
    j := SingleEntry(g, nodes, es, p, e, q, k - 1);
  }

  /** A walk that starts inside a region either stays there or leaves it at the join. */
  lemma {:induction false} SingleExit(g: Graph, branch: Id, join: Id, q: seq<Id>, k: nat)
    requires Closed(g) && IsWalk(g, q) && q[0] in Region(g, branch, join) && k < |q|
    requires forall i :: 0 <= i <= k ==> q[i] != join
    ensures q[k] in Region(g, branch, join)
    decreases k
  {
    if k == 0 {
    } else {
      SingleExit(g, branch, join, q, k - 1);
      assert Edge(g, q[k - 1], q[k]);
      RegionsExitToJoin(g, branch, join, q[k - 1], q[k]);
    }
  }

  // ---------------------------------------------------------------- scope writes

  /** The scopes written anywhere in a branch. */
  ghost function BranchScopes(g: Graph, nodes: NodeMap, branch: Id, join: Id): set<Id> {
    set x, s | x in Region(g, branch, join) && x in nodes && s in nodes[x].writeScopes :: s
  }

  /** Different branches write different scopes. */
  ghost predicate ScopesApart(g: Graph, nodes: NodeMap, fan: set<EdgeDefinition>, join: Id) {
    forall e, f :: e in fan && f in fan && e != f ==>
      BranchScopes(g, nodes, e.to, join) !! BranchScopes(g, nodes, f.to, join)
  }

  /** One recorded scope write: by which branch and node, of which value. */
  datatype Write = Write(branch: EdgeDefinition, node: Id, scope: Id, value: int)

  /** The scope map after the writes, in order. */
  function Outcome(m: map<Id, int>, ws: seq<Write>): map<Id, int> {
    if ws == [] then m else Outcome(m, ws[..|ws| - 1])[ws[|ws| - 1].scope := ws[|ws| - 1].value]
  }

  /** The writes of one branch, in order. */
  function OfBranch(ws: seq<Write>, e: EdgeDefinition): seq<Write> {
    if ws == [] then [] else
      OfBranch(ws[..|ws| - 1], e) + (if ws[|ws| - 1].branch == e then [ws[|ws| - 1]] else [])
  }

  /** Every write is by a region member to one of its declared scopes. */
  ghost predicate WritesDeclared(g: Graph, nodes: NodeMap, fan: set<EdgeDefinition>, join: Id, ws: seq<Write>) {
    forall w :: w in ws ==>
      w.branch in fan && w.node in Region(g, w.branch.to, join) && w.node in nodes
        && w.scope in nodes[w.node].writeScopes
  }

  /** The last value written to a scope. */
  function LastWrite(ws: seq<Write>, s: Id): Option<int> {
    if ws == [] then None
    else if ws[|ws| - 1].scope == s then Some(ws[|ws| - 1].value)
    else LastWrite(ws[..|ws| - 1], s)
  }

  lemma {:induction false} OutcomeIsLastWrite(m: map<Id, int>, ws: seq<Write>, s: Id)
    ensures s in Outcome(m, ws) <==> s in m || LastWrite(ws, s).Some?
    ensures LastWrite(ws, s).Some? ==> Outcome(m, ws)[s] == LastWrite(ws, s).value
    ensures LastWrite(ws, s).None? && s in m ==> Outcome(m, ws)[s] == m[s]
  {
    if ws == [] {
    } else {
      OutcomeIsLastWrite(m, ws[..|ws| - 1], s);
    }
  }

  /** A scope owned by one branch is decided by that branch's writes alone. */
  lemma {:induction false} OwnerDecides(ws: seq<Write>, e: EdgeDefinition, s: Id)
    requires forall w :: w in ws && w.scope == s ==> w.branch == e
    ensures LastWrite(OfBranch(ws, e), s) == LastWrite(ws, s)
  {
    if ws == [] {
    } else {
      var n := |ws| - 1;
      OwnerDecides(ws[..n], e, s);
      if ws[n].branch == e {
        var front := OfBranch(ws[..n], e);
        assert (front + [ws[n]])[..|front|] == front;
      } else {
        assert ws[n] in ws;
        assert OfBranch(ws[..n], e) + [] == OfBranch(ws[..n], e);
      }
    }
  }

  lemma ScopeOwner(g: Graph, nodes: NodeMap, fan: set<EdgeDefinition>, join: Id, ws: seq<Write>, w: Write, v: Write)
    requires ScopesApart(g, nodes, fan, join) && WritesDeclared(g, nodes, fan, join, ws)
    requires w in ws && v.scope == w.scope && WritesDeclared(g, nodes, fan, join, [v])
    ensures v.branch == w.branch
  {
    assert v in [v];
    assert w.scope in BranchScopes(g, nodes, w.branch.to, join);
    assert v.scope in BranchScopes(g, nodes, v.branch.to, join);
  }

  /** However the branches' writes interleave, the scope map ends the same. */
  lemma InterleavingIsIrrelevant(g: Graph, nodes: NodeMap, fan: set<EdgeDefinition>, join: Id,
                                 m: map<Id, int>, ws: seq<Write>, ws': seq<Write>)
    requires ScopesApart(g, nodes, fan, join)
    requires WritesDeclared(g, nodes, fan, join, ws) && WritesDeclared(g, nodes, fan, join, ws')
    requires forall e :: e in fan ==> OfBranch(ws, e) == OfBranch(ws', e)
    ensures Outcome(m, ws) == Outcome(m, ws')
  {
    forall s ensures LastWrite(ws, s) == LastWrite(ws', s) {
      SameLastWrite(g, nodes, fan, join, ws, ws', s);
    }
    var a, b := Outcome(m, ws), Outcome(m, ws');
    forall s ensures (s in a <==> s in b) && (s in a ==> a[s] == b[s]) {
      OutcomeIsLastWrite(m, ws, s);
      OutcomeIsLastWrite(m, ws', s);
    }
  }

  lemma SameLastWrite(g: Graph, nodes: NodeMap, fan: set<EdgeDefinition>, join: Id,
                      ws: seq<Write>, ws': seq<Write>, s: Id)
    requires ScopesApart(g, nodes, fan, join)
    requires WritesDeclared(g, nodes, fan, join, ws) && WritesDeclared(g, nodes, fan, join, ws')
    requires forall e :: e in fan ==> OfBranch(ws, e) == OfBranch(ws', e)
    ensures LastWrite(ws, s) == LastWrite(ws', s)
  {
    if w :| w in ws + ws' && w.scope == s {
      var e := w.branch;
      assert w in ws || w in ws';
      forall v | v in ws + ws' && v.scope == s ensures v.branch == e {
        assert v in ws || v in ws';
        assert WritesDeclared(g, nodes, fan, join, [v]);
        if w in ws {
          ScopeOwner(g, nodes, fan, join, ws, w, v);
        } else {
          ScopeOwner(g, nodes, fan, join, ws', w, v);
        }
      }
      OwnerDecides(ws, e, s);
      OwnerDecides(ws', e, s);
    } else {
      NeverWritten(ws, s);
      NeverWritten(ws', s);
    }
  }

  lemma {:induction false} NeverWritten(ws: seq<Write>, s: Id)
    requires forall w :: w in ws ==> w.scope != s
    ensures LastWrite(ws, s).None?
  {
    if ws == [] {
    } else {
      NeverWritten(ws[..|ws| - 1], s);
    }
  }
}
