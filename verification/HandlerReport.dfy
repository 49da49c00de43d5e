/** The report of declaration faults: printed texts, the stable sort by code and text, and exactly when
    the sorted report depends on the order of registration. */
module HandlerReport {
  import opened Sorting
  import opened Ordered
  import opened HandlerDiagnostics

  // ---------------------------------------------------------------- printing

  function Digits(n: nat): (s: string)
    ensures s != ""
  {
    (if n < 10 then "" else Digits(n / 10)) + [['0', '1', '2', '3', '4', '5', '6', '7', '8', '9'][n % 10]]
  }

  function Joined(path: seq<Id>): string {
    if path == [] then "" else if |path| == 1 then path[0].text else path[0].text + " -> " + Joined(path[1..])
  }

  const DUPLICATE: string := "error[PIPE001]: handler `"
  const REGISTERED: string := "` is registered "
  const TIMES: string := " times"
  const MISSING: string := "error[PIPE002]: handler `"
  const DECLARES: string := "` declares `"
  const ON_MISSING: string := "` constraint on missing handler `"
  const CYCLE: string := "error[PIPE003]: handler ordering contains cycle: "

  function RelationName(r: Relation): string {
    if r.Before? then "before" else "after"
  }

  function Code(d: Diagnostic): string {
    match d
    case DuplicateHandler(_, _) => "PIPE001"
    case MissingDependency(_, _, _) => "PIPE002"
    case OrderingCycle(_) => "PIPE003"
  }

  function Text(d: Diagnostic): string {
    match d
    case DuplicateHandler(h, n) => DUPLICATE + (h.text + (REGISTERED + (Digits(n) + TIMES)))
    case MissingDependency(h, m,
      r) => MISSING + (h.text + (DECLARES + (RelationName(r) + (ON_MISSING + (m.text + "`")))))
    case OrderingCycle(path) => CYCLE + Joined(path)
  }

  /** What diagnostics are sorted by. */
  datatype PrintKey = PrintKey(code: Id, text: Id)

  function PrintKeyOf(d: Diagnostic): PrintKey {
    PrintKey(Id(Code(d)), Id(Text(d)))
  }

  predicate PrintLess(a: PrintKey, b: PrintKey) {
    Less(a.code, b.code) || (a.code == b.code && Less(a.text, b.text))
  }

  predicate PrintsBefore(a: Diagnostic, b: Diagnostic) {
    PrintLess(PrintKeyOf(a), PrintKeyOf(b))
  }

  lemma PrintOrder()
    ensures TotalOrder(PrintLess) && KeyOrder(PrintsBefore)
  {
    LessIsTotal();
  }

  /** The report of a list of registrations: what is collected, sorted. */
  function Report(specs: seq<OrderingSpec>): seq<Diagnostic> {
    Sort(Collected(specs), PrintsBefore)
  }

  lemma ReportIsFaults(specs: seq<OrderingSpec>, d: Diagnostic)
    ensures d in Report(specs) <==> IsDeclarationFault(specs, d)
    ensures multiset(Report(specs)) == multiset(Collected(specs))
  {
    SortPermutes(Collected(specs), PrintsBefore);
    SameElements(Collected(specs), Report(specs));
    CollectedAreFaults(specs, d);
  }

  // ---------------------------------------------------------------- permuted registrations

  lemma {:induction false} AllMissingConcat(a: seq<OrderingSpec>, b: seq<OrderingSpec>, known: set<Id>)
    ensures AllMissing(a + b, known) == AllMissing(a, known) + AllMissing(b, known)
  {
    if b == [] {
      assert a + b == a;
    } else {
      var n := |b| - 1;
      var whole, last := a + b, MissingFrom(b[n], known);
      AllMissingConcat(a, b[..n], known);
      assert whole[..|whole| - 1] == a + b[..n] && whole[|whole| - 1] == b[n];
      assert AllMissing(whole, known) == (AllMissing(a, known) + AllMissing(b[..n], known)) + last;
      assert AllMissing(b, known) == AllMissing(b[..n], known) + last;
    }
  }

  lemma AllMissingWithout(specs: seq<OrderingSpec>, i: nat, known: set<Id>)
    requires i < |specs|
    ensures multiset(AllMissing(specs, known))
         == multiset(AllMissing(Except(specs, i), known)) + multiset(MissingFrom(specs[i], known))
  {
    var front, back := specs[..i], specs[i + 1..];
    assert specs == specs[..i + 1] + back;
    AllMissingConcat(specs[..i + 1], back, known);
    AllMissingNext(specs, i, known);
    AllMissingConcat(front, back, known);
    MiddleOut(AllMissing(front, known), MissingFrom(specs[i], known), AllMissing(back, known));
  }

  lemma {:induction false} AllMissingPermutes(specs: seq<OrderingSpec>, specs': seq<OrderingSpec>, known: set<Id>)
    requires SameRegistrations(specs, specs')
    ensures multiset(AllMissing(specs, known)) == multiset(AllMissing(specs', known))
    decreases |specs|
  {
    SameElements(specs, specs');
    if specs == [] {
    } else {
      assert specs[0] in specs';
      var i :| 0 <= i < |specs'| && specs'[i] == specs[0];
      RemoveOne(specs, 0);
      RemoveOne(specs', i);
      AllMissingPermutes(Except(specs, 0), Except(specs', i), known);
      AllMissingWithout(specs, 0, known);
      AllMissingWithout(specs', i, known);
    }
  }

  lemma {:induction false} SameDuplicates(specs: seq<OrderingSpec>, specs': seq<OrderingSpec>, ids: seq<Id>)
    requires SameRegistrations(specs, specs')
    ensures DuplicatesAmong(specs, ids) == DuplicatesAmong(specs', ids)
  {
    if ids == [] {
    } else {
      SameDuplicates(specs, specs', ids[..|ids| - 1]);
      SameOccurrences(specs, specs', ids[|ids| - 1]);
    }
  }

  /** Permuted registrations collect the same faults, as often. */
  lemma CollectedPermutes(specs: seq<OrderingSpec>, specs': seq<OrderingSpec>)
    requires SameRegistrations(specs, specs')
    ensures multiset(Collected(specs)) == multiset(Collected(specs'))
  {
    SameKnown(specs, specs');
    SameDuplicates(specs, specs', Ascending(Known(specs)));
    AllMissingPermutes(specs, specs', Known(specs));
  }

  /** The printed report never depends on the registration order. */
  lemma PrintedReportIsStable(specs: seq<OrderingSpec>, specs': seq<OrderingSpec>)
    requires SameRegistrations(specs, specs')
    ensures Map(Report(specs), PrintKeyOf) == Map(Report(specs'), PrintKeyOf)
  {
    PrintOrder();
    CollectedPermutes(specs, specs');
    SortedKeysAgree(Collected(specs), Collected(specs'), PrintKeyOf, PrintLess, PrintsBefore);
  }

  /** No two different faults print alike. */
  ghost predicate PrintApart(specs: seq<OrderingSpec>) {
    forall f, g :: IsDeclarationFault(specs, f) && IsDeclarationFault(specs, g) && Text(f) == Text(g) ==> f == g
  }

  /** Faults that all print differently are reported in the same order whatever the registration order. */
  lemma ApartReportIsStable(specs: seq<OrderingSpec>, specs': seq<OrderingSpec>)
    requires SameRegistrations(specs, specs') && PrintApart(specs)
    ensures Report(specs) == Report(specs')
  {
    PrintOrder();
    SameFaults(specs, specs');
    CollectedPermutes(specs, specs');
    SortPermutes(Collected(specs), PrintsBefore);
    SortPermutes(Collected(specs'), PrintsBefore);
    SortAscends(Collected(specs), PrintsBefore);
    SortAscends(Collected(specs'), PrintsBefore);
    ReportCompares(specs);
    ReportCompares(specs');
    AscendingArrangementIsUnique(Report(specs), Report(specs'), PrintsBefore);
  }

  lemma ReportCompares(specs: seq<OrderingSpec>)
    requires PrintApart(specs)
    ensures Compares(Report(specs), PrintsBefore)
  {
    LessIsTotal();
    forall x, y | x in Report(specs) && y in Report(specs) && x != y ensures PrintsBefore(x, y) || PrintsBefore(y, x) {
      ReportIsFaults(specs, x);
      ReportIsFaults(specs, y);
      assert PrintKeyOf(x) != PrintKeyOf(y);
    }
  }

  // ---------------------------------------------------------------- faults that print alike

  lemma CancelPrefix(p: string, a: string, b: string)
    requires p + a == p + b
    ensures a == b
  {
    assert a == (p + a)[|p|..] && b == (p + b)[|p|..];
  }

  lemma CancelSuffix(a: string, b: string, s: string)
    requires a + s == b + s
    ensures a == b
  {
    assert |a| == |b|;
    assert a == (a + s)[..|a|] && b == (b + s)[..|b|];
  }

  /** Different relations print differently from their first letter on. */
  lemma RelationsApart(r: Relation, q: Relation, a: string, b: string)
    requires RelationName(r) + a == RelationName(q) + b
    ensures r == q && a == b
  {
    assert (RelationName(r) + a)[0] == RelationName(r)[0] && (RelationName(q) + b)[0] == RelationName(q)[0];
    CancelPrefix(RelationName(r), a, b);
  }

  /** Missing dependencies of one handler print differently. */
  lemma OneHandlerPrintsApart(f: Diagnostic, g: Diagnostic)
    requires f.MissingDependency? && g.MissingDependency? && f.handler == g.handler && Text(f) == Text(g)
    ensures f == g
  {
    var a, b := ON_MISSING + (f.missing.text + "`"), ON_MISSING + (g.missing.text + "`");
    var r, q := RelationName(f.relation) + a, RelationName(g.relation) + b;
    CancelPrefix(MISSING, f.handler.text + (DECLARES + r), g.handler.text + (DECLARES + q));
    CancelPrefix(f.handler.text, DECLARES + r, DECLARES + q);
    CancelPrefix(DECLARES, r, q);
    RelationsApart(f.relation, g.relation, a, b);
    CancelPrefix(ON_MISSING, f.missing.text + "`", g.missing.text + "`");
    CancelSuffix(f.missing.text, g.missing.text, "`");
  }

  lemma {:induction false} DigitsAreDigits(n: nat, i: nat)
    requires i < |Digits(n)|
    ensures '0' <= Digits(n)[i] <= '9'
  {
    if n < 10 {
    } else if i < |Digits(n / 10)| {
      DigitsAreDigits(n / 10, i);
      assert Digits(n)[i] == Digits(n / 10)[i];
    } else {
      assert Digits(n)[i] == ['0', '1', '2', '3', '4', '5', '6', '7', '8', '9'][n % 10];
    }
  }

  lemma {:induction false} DigitsApart(n: nat, m: nat)
    requires Digits(n) == Digits(m)
    ensures n == m
    decreases n
  {
    var ten := ['0', '1', '2', '3', '4', '5', '6', '7', '8', '9'];
    assert Digits(n)[|Digits(n)| - 1] == ten[n % 10] && Digits(m)[|Digits(m)| - 1] == ten[m % 10];
    assert n % 10 == m % 10;
    if n < 10 || m < 10 {
    } else {
      assert Digits(n / 10) == Digits(n)[..|Digits(n)| - 1] && Digits(m / 10) == Digits(m)[..|Digits(m)| - 1];
      DigitsApart(n / 10, m / 10);
    }
  }

  lemma NumberStarts(a: string, n: nat, k: nat)
    requires |a| <= k < |a + Digits(n)|
    ensures '0' <= (a + Digits(n))[k] <= '9'
  {
    DigitsAreDigits(n, k - |a|);
  }

  /** A text that ends before its number in a space tells where the number starts. */
  lemma NumberEnds(a: string, n: nat, b: string, m: nat)
    requires a != "" && b != "" && a[|a| - 1] == ' ' && b[|b| - 1] == ' ' && a + Digits(n) == b + Digits(m)
    ensures a == b && n == m
  {
    var whole := a + Digits(n);
    assert whole == b + Digits(m) && whole[|a| - 1] == ' ' && whole[|b| - 1] == ' ';
    if |a| < |b| {
      NumberStarts(a, n, |b| - 1);
    }
    if |b| < |a| {
      NumberStarts(b, m, |a| - 1);
    }
    assert a == whole[..|a|] == b && Digits(n) == whole[|a|..] == Digits(m);
    DigitsApart(n, m);
  }

  lemma DuplicatesPrintApart(f: Diagnostic, g: Diagnostic)
    requires f.DuplicateHandler? && g.DuplicateHandler? && Text(f) == Text(g)
    ensures f == g
  {
    var a, b := f.handler.text + REGISTERED, g.handler.text + REGISTERED;
    var n, m := Digits(f.registrations), Digits(g.registrations);
    assert f.handler.text + (REGISTERED + (n + TIMES)) == (a + n) + TIMES;
    assert g.handler.text + (REGISTERED + (m + TIMES)) == (b + m) + TIMES;
    CancelPrefix(DUPLICATE, (a + n) + TIMES, (b + m) + TIMES);
    CancelSuffix(a + n, b + m, TIMES);
    assert a[|a| - 1] == REGISTERED[|REGISTERED| - 1] == ' ' && b[|b| - 1] == REGISTERED[|REGISTERED| - 1];
    NumberEnds(a, f.registrations, b, g.registrations);
    CancelSuffix(f.handler.text, g.handler.text, REGISTERED);
  }

  /** Two different faults that print alike are missing dependencies of different handlers. */
  lemma AlikeFaults(specs: seq<OrderingSpec>, f: Diagnostic, g: Diagnostic)
    requires IsDeclarationFault(specs, f) && IsDeclarationFault(specs, g) && Text(f) == Text(g) && f != g
    ensures f.MissingDependency? && g.MissingDependency? && f.handler != g.handler
  {
    assert DUPLICATE[12] == '1' && MISSING[12] == '2';
    assert Text(f)[12] == if f.DuplicateHandler? then '1' else '2';
    assert Text(g)[12] == if g.DuplicateHandler? then '1' else '2';
    if f.DuplicateHandler? {
      DuplicatesPrintApart(f, g);
    } else if f.handler == g.handler {
      OneHandlerPrintsApart(f, g);
    }
  }

  // ---------------------------------------------------------------- an order that swaps them

  function HandledBy(h: Id): OrderingSpec -> bool {
    (s: OrderingSpec) => s.handler == h
  }

  function NotHandledBy(h: Id): OrderingSpec -> bool {
    (s: OrderingSpec) => s.handler != h
  }

  function Either(f: Diagnostic, g: Diagnostic): Diagnostic -> bool {
    (d: Diagnostic) => d == f || d == g
  }

  lemma NoDuplicateIsEither(specs: seq<OrderingSpec>, ids: seq<Id>, f: Diagnostic, g: Diagnostic)
    requires f.MissingDependency? && g.MissingDependency?
    ensures Filter(DuplicatesAmong(specs, ids), Either(f, g)) == []
  {
    DuplicatesAmongAre(specs, ids, f);
    DuplicatesAmongAre(specs, ids, g);
    FilterNone(DuplicatesAmong(specs, ids), Either(f, g));
  }

  /** Of two missing dependencies, specifications that do not have the second's handler miss only the first. */
  lemma OnlyFirstIsMissing(a: seq<OrderingSpec>, known: set<Id>, f: Diagnostic, g: Diagnostic)
    requires f in AllMissing(a, known) && g.MissingDependency? && forall s :: s in a ==> s.handler != g.handler
    ensures Filter(AllMissing(a, known), Either(f, g)) != [] && Filter(AllMissing(a, known), Either(f, g))[0] == f
  {
    AllMissingAre(a, known, g);
    FilterAll(AllMissing(a, known), Either(f, g), f);
  }

  lemma FaultIsMissed(a: seq<OrderingSpec>, b: seq<OrderingSpec>, f: Diagnostic)
    requires IsDeclarationFault(a + b, f) && f.MissingDependency? && forall s :: s in b ==> s.handler != f.handler
    ensures f in AllMissing(a, Known(a + b))
  {
    var s :| s in a + b && MissingIn(s, Known(a + b), f);
    assert s in a;
    AllMissingAre(a, Known(a + b), f);
  }

  /** Among the collected faults, of two missing dependencies the one whose handler comes first leads. */
  lemma FirstHandlerLeads(a: seq<OrderingSpec>, b: seq<OrderingSpec>, f: Diagnostic, g: Diagnostic)
    requires IsDeclarationFault(a + b, f) && f.MissingDependency? && g.MissingDependency?
    requires (forall s :: s in a ==> s.handler != g.handler) && forall s :: s in b ==> s.handler != f.handler
    ensures Filter(Collected(a + b), Either(f, g)) != [] && Filter(Collected(a + b), Either(f, g))[0] == f
  {
    var p, known := Either(f, g), Known(a + b);
    var duplicates := DuplicatesAmong(a + b, Ascending(known));
    var first, rest := AllMissing(a, known), AllMissing(b, known);
    FaultIsMissed(a, b, f);
    OnlyFirstIsMissing(a, known, f, g);
    AllMissingConcat(a, b, known);
    FilterConcat(duplicates, first + rest, p);
    FilterConcat(first, rest, p);
    NoDuplicateIsEither(a + b, Ascending(known), f, g);
  }

  lemma Regrouped(specs: seq<OrderingSpec>, h: Id)
    ensures SameRegistrations(specs, Filter(specs, HandledBy(h)) + Filter(specs, NotHandledBy(h)))
    ensures SameRegistrations(specs, Filter(specs, NotHandledBy(h)) + Filter(specs, HandledBy(h)))
  {
    FilterPartitions(specs, HandledBy(h), NotHandledBy(h));
    FilterPartitions(specs, NotHandledBy(h), HandledBy(h));
  }

  /** The sort keeps the collected order of two faults that print alike. */
  lemma LeaderStays(specs: seq<OrderingSpec>, f: Diagnostic, g: Diagnostic)
    requires Text(f) == Text(g) && f.MissingDependency? && g.MissingDependency?
    ensures Filter(Report(specs), Either(f, g)) == Filter(Collected(specs), Either(f, g))
  {
    LessIsTotal();
    SortIsStable(Collected(specs), PrintsBefore, Either(f, g));
  }

  /** Two different faults that print alike come in either order, depending on the registration. */
  lemma AlikeFaultsSwap(specs: seq<OrderingSpec>, f: Diagnostic, g: Diagnostic) returns (one: seq<OrderingSpec>,
                        two: seq<OrderingSpec>)
    requires IsDeclarationFault(specs, f) && IsDeclarationFault(specs, g) && Text(f) == Text(g) && f != g
    ensures SameRegistrations(specs, one) && SameRegistrations(specs, two) && Report(one) != Report(two)
  {
    AlikeFaults(specs, f, g);
    var mine, others := Filter(specs, HandledBy(f.handler)), Filter(specs, NotHandledBy(f.handler));
    one, two := mine + others, others + mine;
    Regrouped(specs, f.handler);
    SameFaults(specs, one);
    SameFaults(specs, two);
    FirstHandlerLeads(mine, others, f, g);
    assert Either(g, f)(f) && Either(g, f)(g);
    FirstHandlerLeads(others, mine, g, f);
    LeaderStays(one, f, g);
    LeaderStays(two, g, f);
    SameFilter(Report(two), f, g);
  }

  lemma {:induction false} SameFilter(ds: seq<Diagnostic>, f: Diagnostic, g: Diagnostic)
    ensures Filter(ds, Either(f, g)) == Filter(ds, Either(g, f))
  {
    if ds == [] {
    } else {
      SameFilter(ds[1..], f, g);
    }
  }

  /** The sorted report is independent of the registration order exactly when no two different faults
      print alike. */
  lemma ReportIsStableIff(specs: seq<OrderingSpec>)
    ensures (forall specs' :: SameRegistrations(specs, specs') ==> Report(specs') == Report(specs))
      <==> PrintApart(specs)
  {
    if PrintApart(specs) {
      forall specs' | SameRegistrations(specs, specs') ensures Report(specs') == Report(specs) {
        ApartReportIsStable(specs, specs');
      }
    } else {
      var f, g :| IsDeclarationFault(specs, f) && IsDeclarationFault(specs, g) && Text(f) == Text(g) && f != g;
      var one, two := AlikeFaultsSwap(specs, f, g);
      assert Report(one) != Report(specs) || Report(two) != Report(specs);
    }
  }

  /** It happens: handlers `u` and `u`+between+`v`, where `between` is the text printed between a
      handler and what it misses. */
  function Clashing(u: string, v: string, w: string): seq<OrderingSpec> {
    var between := DECLARES + ("before" + ON_MISSING);
    [OrderingSpec(Id(u), Id("plugin"), 0, 0, [Id(v + between + w)], []),
     OrderingSpec(Id(u + between + v), Id("plugin"), 0, 0, [Id(w)], [])]
  }

  lemma ClashingReportDependsOnOrder(u: string, v: string)
    ensures !PrintApart(Clashing(u, v, u + v + "x"))
    ensures exists specs' :: SameRegistrations(Clashing(u, v, u + v + "x"), specs')
                             && Report(specs') != Report(Clashing(u, v, u + v + "x"))
  {
    var w := u + v + "x";
    var between := DECLARES + ("before" + ON_MISSING);
    var specs := Clashing(u, v, w);
    var f := MissingDependency(Id(u), Id(v + between + w), Before);
    var g := MissingDependency(Id(u + between + v), Id(w), Before);
    assert specs[0] in specs && specs[1] in specs;
    assert specs[0].handler == Id(u) && specs[1].handler == Id(u + between + v);
    assert |v + between + w| > |u + between + v| > |w| > |u|;
    assert Known(specs) == {Id(u), Id(u + between + v)};
    ClashPrints(u, v, w);
    assert MissingIn(specs[0], Known(specs), f);
    assert MissingIn(specs[1], Known(specs), g);
    ReportIsStableIff(specs);
  }

  lemma ClashPrints(u: string, v: string, w: string)
    ensures var between := DECLARES + ("before" + ON_MISSING);
      Text(MissingDependency(Id(u), Id(v + between + w), Before))
        == Text(MissingDependency(Id(u + between + v), Id(w), Before))
  {
    var between := DECLARES + ("before" + ON_MISSING);
    assert u + (DECLARES + ("before" + (ON_MISSING + (v + between + w + "`")))) == u + between + v + between + w + "`";
    assert u + between + v + (DECLARES + ("before" + (ON_MISSING + (w + "`")))) == u + between + v + between + w + "`";
  }
}
