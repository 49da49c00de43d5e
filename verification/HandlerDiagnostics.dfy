/** Declaration faults of handler registrations: which there are, in which order they are collected,
    how they are printed and sorted, and when the sorted report depends on the registration order. */
module HandlerDiagnostics {
  import opened Sorting
  import opened Ordered

  datatype OrderingSpec = OrderingSpec(
    handler: Id, plugin: Id, stage: nat, priority: int, before: seq<Id>, after: seq<Id>)

  datatype Relation = Before | After

  datatype Diagnostic =
    | DuplicateHandler(handler: Id, registrations: nat)
    | MissingDependency(handler: Id, missing: Id, relation: Relation)
    | OrderingCycle(path: seq<Id>)

  function Known(specs: seq<OrderingSpec>): set<Id> {
    set i | 0 <= i < |specs| :: specs[i].handler
  }

  function Occurrences(specs: seq<OrderingSpec>, h: Id): nat {
    if specs == [] then 0
    else Occurrences(specs[..|specs| - 1], h) + (if specs[|specs| - 1].handler == h then 1 else 0)
  }

  predicate MissingIn(s: OrderingSpec, known: set<Id>, d: Diagnostic) {
    && d.MissingDependency?
    && d.handler == s.handler
    && d.missing !in known
    && d.missing in (if d.relation.Before? then s.before else s.after)
  }

  ghost predicate IsDeclarationFault(specs: seq<OrderingSpec>, d: Diagnostic) {
    match d
    case DuplicateHandler(h, n) => n == Occurrences(specs, h) && n > 1
    case MissingDependency(_, _, _) => exists s :: s in specs && MissingIn(s, Known(specs), d)
    case OrderingCycle(_) => false
  }

  ghost predicate UniqueHandlers(specs: seq<OrderingSpec>) {
    forall i, j :: 0 <= i < j < |specs| ==> specs[i].handler != specs[j].handler
  }

  ghost predicate WellDeclared(specs: seq<OrderingSpec>) {
    && UniqueHandlers(specs)
    && forall s, x :: s in specs && (x in s.before || x in s.after) ==> x in Known(specs)
  }

  // ---------------------------------------------------------------- declaration checks

  lemma {:induction false} OccurrencesPositive(specs: seq<OrderingSpec>, h: Id)
    ensures Occurrences(specs, h) > 0 <==> h in Known(specs)
  {
    if specs == [] {
    } else {
      var n := |specs| - 1;
      OccurrencesPositive(specs[..n], h);
      KnownGrows(specs);
    }
  }

  predicate Repeated(specs: seq<OrderingSpec>, h: Id) {
    Occurrences(specs, h) > 1
  }

  lemma {:induction false} DuplicateIffOccurrences(specs: seq<OrderingSpec>)
    ensures UniqueHandlers(specs) <==> forall h :: !Repeated(specs, h)
  {
    if specs == [] {
    } else {
      var n := |specs| - 1;
      var front := specs[..n];
      DuplicateIffOccurrences(front);
      var last := specs[n].handler;
      OccurrencesPositive(front, last);
      UniqueGrows(specs);
      if UniqueHandlers(specs) {
        forall h ensures !Repeated(specs, h) {
          assert !Repeated(front, h);
        }
      }
      if forall h :: !Repeated(specs, h) {
        forall h ensures !Repeated(front, h) {
          assert !Repeated(specs, h);
        }
        assert !Repeated(specs, last);
      }
    }
  }

  method CountHandlers(specs: seq<OrderingSpec>) returns (counts: map<Id, nat>)
    ensures counts.Keys == Known(specs)
    ensures forall h :: h in counts ==> counts[h] == Occurrences(specs, h)
  {
    counts := map[];
    for i := 0 to |specs|
      invariant forall h :: h in counts <==> Occurrences(specs[..i], h) > 0
      invariant forall h :: h in counts ==> counts[h] == Occurrences(specs[..i], h)
    {
      var h := specs[i].handler;
      assert specs[..i + 1][..i] == specs[..i];
      counts := counts[h := (if h in counts then counts[h] else 0) + 1];
    }
    assert specs[..|specs|] == specs;
    forall h ensures h in counts <==> h in Known(specs) { OccurrencesPositive(specs, h); }
  }

  // ---------------------------------------------------------------- reported in order

  /** The missing entries of one list, in its order. */
  function MissingAlong(h: Id, xs: seq<Id>, known: set<Id>, relation: Relation): seq<Diagnostic> {
    if xs == [] then []
    else
      var n := |xs| - 1;
      MissingAlong(h, xs[..n], known, relation)
      + (if xs[n] in known then [] else [MissingDependency(h, xs[n], relation)])
  }

  /** What one specification misses: its `before` entries, then its `after` entries. */
  function MissingFrom(s: OrderingSpec, known: set<Id>): seq<Diagnostic> {
    MissingAlong(s.handler, s.before, known, Before) + MissingAlong(s.handler, s.after, known, After)
  }

  function AllMissing(specs: seq<OrderingSpec>, known: set<Id>): seq<Diagnostic> {
    if specs == [] then []
    else AllMissing(specs[..|specs| - 1], known) + MissingFrom(specs[|specs| - 1], known)
  }

  /** The listed handlers that are registered more than once. */
  function DuplicatesAmong(specs: seq<OrderingSpec>, ids: seq<Id>): seq<Diagnostic> {
    if ids == [] then []
    else
      var n := |ids| - 1;
      DuplicatesAmong(specs, ids[..n])
      + (if Repeated(specs, ids[n]) then [DuplicateHandler(ids[n], Occurrences(specs, ids[n]))] else [])
  }

  /** The faults as they are collected: duplicates by handler, then missing entries by registration. */
  function Collected(specs: seq<OrderingSpec>): seq<Diagnostic> {
    DuplicatesAmong(specs, Ascending(Known(specs))) + AllMissing(specs, Known(specs))
  }

  lemma {:induction false} MissingAlongAre(h: Id, xs: seq<Id>, known: set<Id>, relation: Relation, d: Diagnostic)
    ensures d in MissingAlong(h, xs, known, relation) <==>
      d.MissingDependency? && d.handler == h && d.relation == relation && d.missing in xs && d.missing !in known
  {
    if xs == [] {
    } else {
      MissingAlongAre(h, xs[..|xs| - 1], known, relation, d);
      assert xs == xs[..|xs| - 1] + [xs[|xs| - 1]];
    }
  }

  lemma MissingFromAre(s: OrderingSpec, known: set<Id>, d: Diagnostic)
    ensures d in MissingFrom(s, known) <==> MissingIn(s, known, d)
  {
    MissingAlongAre(s.handler, s.before, known, Before, d);
    MissingAlongAre(s.handler, s.after, known, After, d);
  }

  lemma AllMissingNext(specs: seq<OrderingSpec>, i: nat, known: set<Id>)
    requires i < |specs|
    ensures AllMissing(specs[..i + 1], known) == AllMissing(specs[..i], known) + MissingFrom(specs[i], known)
  {
    assert specs[..i + 1][..i] == specs[..i];
  }

  lemma {:induction false} AllMissingAre(specs: seq<OrderingSpec>, known: set<Id>, d: Diagnostic)
    ensures d in AllMissing(specs, known) <==> exists s :: s in specs && MissingIn(s, known, d)
  {
    if specs == [] {
    } else {
      var n := |specs| - 1;
      var last := specs[n];
      AllMissingAre(specs[..n], known, d);
      MissingFromAre(last, known, d);
      assert specs == specs[..n] + [last];
      if MissingIn(last, known, d) {
        assert last in specs;
      }
    }
  }

  lemma DuplicatesNext(specs: seq<OrderingSpec>, ids: seq<Id>, i: nat)
    requires i < |ids|
    ensures DuplicatesAmong(specs, ids[..i + 1]) == DuplicatesAmong(specs, ids[..i])
         + (if Repeated(specs, ids[i]) then [DuplicateHandler(ids[i], Occurrences(specs, ids[i]))] else [])
  {
    assert ids[..i + 1][..i] == ids[..i];
  }

  lemma {:induction false} DuplicatesAmongAre(specs: seq<OrderingSpec>, ids: seq<Id>, d: Diagnostic)
    ensures d in DuplicatesAmong(specs, ids) <==>
      d.DuplicateHandler? && d.handler in ids && IsDeclarationFault(specs, d)
  {
    if ids == [] {
    } else {
      DuplicatesAmongAre(specs, ids[..|ids| - 1], d);
      assert ids == ids[..|ids| - 1] + [ids[|ids| - 1]];
    }
  }

  /** What is collected is exactly the declaration faults. */
  lemma CollectedAreFaults(specs: seq<OrderingSpec>, d: Diagnostic)
    ensures d in Collected(specs) <==> IsDeclarationFault(specs, d)
  {
    DuplicatesAmongAre(specs, Ascending(Known(specs)), d);
    AllMissingAre(specs, Known(specs), d);
    if d.DuplicateHandler? {
      OccurrencesPositive(specs, d.handler);
    }
  }

  method MissingOf(s: OrderingSpec, known: set<Id>) returns (ds: seq<Diagnostic>)
    ensures ds == MissingFrom(s, known)
  {
    ds := [];
    for i := 0 to |s.before|
      invariant ds == MissingAlong(s.handler, s.before[..i], known, Before)
    {
      assert s.before[..i + 1][..i] == s.before[..i];
      if s.before[i] !in known {
        ds := ds + [MissingDependency(s.handler, s.before[i], Before)];
      }
    }
    assert s.before[..|s.before|] == s.before;
    for i := 0 to |s.after|
      invariant ds == MissingAlong(s.handler, s.before, known, Before)
                      + MissingAlong(s.handler, s.after[..i], known, After)
    {
      assert s.after[..i + 1][..i] == s.after[..i];
      if s.after[i] !in known {
        ds := ds + [MissingDependency(s.handler, s.after[i], After)];
      }
    }
    assert s.after[..|s.after|] == s.after;
  }

  method Duplicates(ghost specs: seq<OrderingSpec>, counts: map<Id, nat>) returns (ds: seq<Diagnostic>)
    requires counts.Keys == Known(specs)
    requires forall h :: h in counts ==> counts[h] == Occurrences(specs, h)
    ensures ds == DuplicatesAmong(specs, Ascending(Known(specs)))
  {
    ds := [];
    var ids := Ascending(counts.Keys);
    for i := 0 to |ids|
      invariant ds == DuplicatesAmong(specs, ids[..i])
    {
      DuplicatesNext(specs, ids, i);
      assert ids[i] in ids;
      if counts[ids[i]] > 1 {
        ds := ds + [DuplicateHandler(ids[i], counts[ids[i]])];
      }
    }
    assert ids[..|ids|] == ids;
  }

  /** Collects every declaration fault, in the order the loops meet them. */
  method DeclarationDiagnostics(specs: seq<OrderingSpec>) returns (ds: seq<Diagnostic>)
    ensures ds == Collected(specs)
    ensures forall d :: d in ds <==> IsDeclarationFault(specs, d)
  {
    var counts := CountHandlers(specs);
    var known := counts.Keys;
    var duplicates := Duplicates(specs, counts);
    var missing: seq<Diagnostic> := [];
    for i := 0 to |specs|
      invariant missing == AllMissing(specs[..i], known)
    {
      AllMissingNext(specs, i, known);
      var more := MissingOf(specs[i], known);
      missing := missing + more;
    }
    assert specs[..|specs|] == specs;
    ds := duplicates + missing;
    forall d ensures d in ds <==> IsDeclarationFault(specs, d) {
      CollectedAreFaults(specs, d);
    }
  }

  lemma FaultlessIsWellDeclared(specs: seq<OrderingSpec>)
    ensures WellDeclared(specs) <==> forall d :: !IsDeclarationFault(specs, d)
  {
    DuplicateIffOccurrences(specs);
    if WellDeclared(specs) {
      forall d ensures !IsDeclarationFault(specs, d) {
        if d.DuplicateHandler? {
          assert !Repeated(specs, d.handler);
        }
      }
    }
    if forall d :: !IsDeclarationFault(specs, d) {
      forall h ensures !Repeated(specs, h) {
        assert !IsDeclarationFault(specs, DuplicateHandler(h, Occurrences(specs, h)));
      }
      forall s, x | s in specs && (x in s.before || x in s.after) ensures x in Known(specs) {
        assert !IsDeclarationFault(specs, MissingDependency(s.handler, x, Before));
        assert !IsDeclarationFault(specs, MissingDependency(s.handler, x, After));
        if x !in Known(specs) {
          assert MissingIn(s, Known(specs), MissingDependency(s.handler, x, if x in s.before then Before else After));
        }
      }
    }
  }

  // ---------------------------------------------------------------- permuted registrations

  lemma UniqueGrows(specs: seq<OrderingSpec>)
    requires specs != []
    ensures UniqueHandlers(specs) <==>
      UniqueHandlers(specs[..|specs| - 1]) && specs[|specs| - 1].handler !in Known(specs[..|specs| - 1])
  {
    var n := |specs| - 1;
    var front, last := specs[..n], specs[n].handler;
    assert forall i :: 0 <= i < n ==> front[i] == specs[i];
    if last in Known(front) {
      var i :| 0 <= i < n && front[i].handler == last;
      assert specs[i].handler == specs[n].handler;
    } else {
      forall i | 0 <= i < n ensures specs[i].handler != last { assert front[i].handler in Known(front); }
    }
  }

  lemma {:induction false} UniqueCount(specs: seq<OrderingSpec>)
    ensures |Known(specs)| <= |specs|
    ensures UniqueHandlers(specs) <==> |Known(specs)| == |specs|
  {
    if specs == [] {
    } else {
      var front, last := specs[..|specs| - 1], specs[|specs| - 1].handler;
      UniqueCount(front);
      UniqueGrows(specs);
      KnownGrows(specs);
      assert last in Known(front) ==> Known(front) + {last} == Known(front);
    }
  }

  lemma KnownGrows(specs: seq<OrderingSpec>)
    requires specs != []
    ensures Known(specs) == Known(specs[..|specs| - 1]) + {specs[|specs| - 1].handler}
  {
    var n := |specs| - 1;
    var front := specs[..n];
    forall x ensures x in Known(specs) <==> x in Known(front) || x == specs[n].handler {
      if x in Known(specs) {
        var i :| 0 <= i < |specs| && specs[i].handler == x;
        if i < n { assert front[i] == specs[i]; }
      }
      if x in Known(front) {
        var i :| 0 <= i < n && front[i].handler == x;
        assert specs[i] == front[i];
      }
    }
  }

  ghost predicate SameRegistrations(specs: seq<OrderingSpec>, specs': seq<OrderingSpec>) {
    multiset(specs) == multiset(specs')
  }

  lemma SameKnown(specs: seq<OrderingSpec>, specs': seq<OrderingSpec>)
    requires SameRegistrations(specs, specs')
    ensures forall s :: s in specs <==> s in specs'
    ensures Known(specs) == Known(specs') && |specs| == |specs'|
  {
    SameElements(specs, specs');
    forall x ensures x in Known(specs) <==> x in Known(specs') {
      KnownMember(specs, x);
      KnownMember(specs', x);
    }
  }

  lemma KnownMember(specs: seq<OrderingSpec>, x: Id)
    ensures x in Known(specs) <==> exists s :: s in specs && s.handler == x
  {
  }

  lemma {:induction false} OccurrencesConcat(a: seq<OrderingSpec>, b: seq<OrderingSpec>, h: Id)
    ensures Occurrences(a + b, h) == Occurrences(a, h) + Occurrences(b, h)
  {
    if b == [] {
      assert a + b == a;
    } else {
      OccurrencesConcat(a, b[..|b| - 1], h);
      assert (a + b)[..|a + b| - 1] == a + b[..|b| - 1];
    }
  }

  lemma OccurrencesWithout(specs: seq<OrderingSpec>, i: nat, h: Id)
    requires i < |specs|
    ensures Occurrences(specs, h)
         == Occurrences(specs[..i] + specs[i + 1..], h) + (if specs[i].handler == h then 1 else 0)
  {
    assert specs == specs[..i + 1] + specs[i + 1..];
    OccurrencesConcat(specs[..i + 1], specs[i + 1..], h);
    OccurrencesConcat(specs[..i], specs[i + 1..], h);
    assert specs[..i + 1][..i] == specs[..i];
  }

  lemma Without(specs: seq<OrderingSpec>, i: nat)
    requires i < |specs|
    ensures multiset(specs[..i] + specs[i + 1..]) == multiset(specs) - multiset{specs[i]}
  {
    assert specs == specs[..i] + ([specs[i]] + specs[i + 1..]);
  }

  lemma {:induction false} SameOccurrences(specs: seq<OrderingSpec>, specs': seq<OrderingSpec>, h: Id)
    requires SameRegistrations(specs, specs')
    ensures Occurrences(specs, h) == Occurrences(specs', h)
    decreases |specs|
  {
    if specs == [] {
      assert |specs'| == |multiset(specs')| == |multiset(specs)|;
    } else {
      var last := specs[|specs| - 1];
      assert last in multiset(specs');
      var i :| 0 <= i < |specs'| && specs'[i] == last;
      var front, others := specs[..|specs| - 1], specs'[..i] + specs'[i + 1..];
      Without(specs', i);
      assert specs == front + [last];
      SameOccurrences(front, others, h);
      OccurrencesWithout(specs', i, h);
    }
  }

  /** Declaration faults do not depend on the registration order. */
  lemma SameFaults(specs: seq<OrderingSpec>, specs': seq<OrderingSpec>)
    requires SameRegistrations(specs, specs')
    ensures WellDeclared(specs) <==> WellDeclared(specs')
    ensures forall d :: IsDeclarationFault(specs, d) <==> IsDeclarationFault(specs', d)
  {
    SameKnown(specs, specs');
    UniqueCount(specs);
    UniqueCount(specs');
    forall d ensures IsDeclarationFault(specs, d) <==> IsDeclarationFault(specs', d) {
      if d.DuplicateHandler? {
        SameOccurrences(specs, specs', d.handler);
      }
    }
  }
}
