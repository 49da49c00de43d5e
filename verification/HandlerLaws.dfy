/** The order of handlers in terms of their declared fields. */
module HandlerLaws {
  import opened Ordered
  import opened Sorting
  import opened Digraph
  import opened HandlerDiagnostics
  import opened HandlerReport
  import opened HandlerOrder

  /** Everything that has to run before `t` is among the placed. */
  ghost predicate Free(specs: seq<OrderingSpec>, placed: seq<Id>, t: OrderingSpec) {
    forall x :: x in specs && MustPrecede(x, t) ==> x.handler in placed
  }

  predicate MustPrecede(x: OrderingSpec, t: OrderingSpec) {
    t.handler in x.before || x.handler in t.after
  }

  /** Lower stage first, then higher priority, then plugin and handler by their text. */
  ghost predicate ComesFirst(s: OrderingSpec, t: OrderingSpec) {
    && s.stage <= t.stage
    && (s.stage == t.stage ==> s.priority >= t.priority)
    && (s.stage == t.stage && s.priority == t.priority ==>
          TextPrecedes(s.plugin.text, t.plugin.text)
          || (s.plugin == t.plugin && TextPrecedes(s.handler.text, t.handler.text)))
  }

  /** At position `k` stands a handler that is free, and comes first of those that are. */
  ghost predicate ChosenAt(specs: seq<OrderingSpec>, hs: seq<Id>, k: nat)
    requires k < |hs|
  {
    forall s :: s in specs && s.handler == hs[k] ==>
      Free(specs, hs[..k], s) && FirstOfFree(specs, hs[..k], s)
  }

  ghost predicate FirstOfFree(specs: seq<OrderingSpec>, placed: seq<Id>, s: OrderingSpec) {
    forall t :: t in specs && t != s && t.handler !in placed && Free(specs, placed, t) ==> ComesFirst(s, t)
  }

  /** Every handler once, each chosen as the first of the free ones. */
  ghost predicate ChosenInTurn(specs: seq<OrderingSpec>, hs: seq<Id>) {
    && (forall i, j :: 0 <= i < j < |hs| ==> hs[i] != hs[j])
    && (forall h :: h in hs <==> Registered(specs, h))
    && forall k :: 0 <= k < |hs| ==> ChosenAt(specs, hs, k)
  }

  ghost predicate Registered(specs: seq<OrderingSpec>, h: Id) {
    exists s :: s in specs && s.handler == h
  }

  lemma RegisteredIsKnown(specs: seq<OrderingSpec>, h: Id)
    ensures Registered(specs, h) <==> h in Known(specs)
  {
    if h in Known(specs) {
      var i :| 0 <= i < |specs| && specs[i].handler == h;
      assert specs[i] in specs;
    }
  }

  lemma OneSpec(specs: seq<OrderingSpec>, s: OrderingSpec, t: OrderingSpec)
    requires WellDeclared(specs) && s in specs && t in specs && s.handler == t.handler
    ensures s == t
  {
  }

  lemma FreeIsReady(specs: seq<OrderingSpec>, placed: seq<Id>, t: OrderingSpec)
    requires WellDeclared(specs) && t in specs && t.handler !in placed
    ensures Ready(ConstraintGraph(specs), placed, t.handler) <==> Free(specs, placed, t)
  {
    var g := ConstraintGraph(specs);
    RegisteredIsKnown(specs, t.handler);
    if Ready(g, placed, t.handler) {
      forall x | x in specs && MustPrecede(x, t) ensures x.handler in placed {
        RegisteredIsKnown(specs, x.handler);
        assert Declares(x, x.handler, t.handler) || Declares(t, x.handler, t.handler);
        assert Edge(g, x.handler, t.handler);
      }
    }
    if Free(specs, placed, t) {
      forall a | a in g && Edge(g, a, t.handler) ensures a in placed {
        RegisteredIsKnown(specs, a);
        var x :| x in specs && x.handler == a;
        var s :| s in specs && Declares(s, a, t.handler);
        if s.handler == a {
          OneSpec(specs, s, x);
        }
        if s.handler == t.handler {
          OneSpec(specs, s, t);
        }
        assert MustPrecede(x, t);
      }
    }
  }

  lemma ComesFirstIsKeyLess(s: OrderingSpec, t: OrderingSpec)
    ensures ComesFirst(s, t) <==> KeyLess(KeyOf(s), KeyOf(t))
  {
    LessDiffers(s.plugin.text, t.plugin.text);
    LessDiffers(s.handler.text, t.handler.text);
  }

  lemma GreedyIsChosen(specs: seq<OrderingSpec>, hs: seq<Id>, k: nat)
    requires WellDeclared(specs) && Distinct(hs) && Elements(hs) == Known(specs) && k < |hs|
    ensures GreedyAt(specs, hs, k) <==> ChosenAt(specs, hs, k)
  {
    assert hs[k] in hs;
    assert hs[k] in Elements(hs);
    RegisteredIsKnown(specs, hs[k]);
    var s :| s in specs && s.handler == hs[k];
    FreeIsReady(specs, hs[..k], s);
    forall t | t in specs && t.handler !in hs[..k]
      ensures Ready(ConstraintGraph(specs), hs[..k], t.handler) <==> Free(specs, hs[..k], t)
      ensures ComesFirst(s, t) <==> KeyLess(KeyOf(s), KeyOf(t))
    {
      FreeIsReady(specs, hs[..k], t);
      ComesFirstIsKeyLess(s, t);
    }
    forall t | t in specs && t.handler == hs[k] ensures t == s {
      OneSpec(specs, s, t);
    }
  }

  /** The compiled order of well-declared handlers is exactly the one chosen in turn by stage,
      priority, plugin and handler among those that wait for nothing. */
  lemma CompiledIsChosenInTurn(specs: seq<OrderingSpec>, hs: seq<Id>)
    requires WellDeclared(specs)
    ensures IsGreedyOrder(specs, hs) <==> ChosenInTurn(specs, hs)
  {
    forall h ensures Registered(specs, h) <==> h in Known(specs) {
      RegisteredIsKnown(specs, h);
    }
    if Elements(hs) == Known(specs) && Distinct(hs) {
      forall k: nat | k < |hs| ensures GreedyAt(specs, hs, k) <==> ChosenAt(specs, hs, k) {
        GreedyIsChosen(specs, hs, k);
      }
    }
    if ChosenInTurn(specs, hs) {
      assert Elements(hs) == Known(specs);
    }
  }

  /** In a compiled order every handler stands before those it names as `before`, and after those it
      names as `after`. */
  lemma DeclarationsAreRespected(specs: seq<OrderingSpec>, hs: seq<Id>, s: OrderingSpec, i: nat, j: nat)
    requires CompilesTo(specs, Compiled(hs)) && s in specs && i < |hs| && j < |hs| && hs[i] == s.handler
    ensures hs[j] in s.before ==> i < j
    ensures hs[j] in s.after ==> j < i
  {
    var g := ConstraintGraph(specs);
    GreedyIsForward(specs, hs);
    assert hs[i] in Elements(hs) && hs[j] in Elements(hs);
    if hs[j] in s.before {
      assert Declares(s, hs[i], hs[j]);
      assert Edge(g, hs[i], hs[j]);
    }
    if hs[j] in s.after {
      assert Declares(s, hs[j], hs[i]);
      assert Edge(g, hs[j], hs[i]);
    }
  }

  /** Of two handlers that both wait for nothing, the one of the lower stage runs first; at equal
      stage the one of the higher priority; then the one of the smaller plugin text. */
  lemma ReadyTogether(specs: seq<OrderingSpec>, hs: seq<Id>, s: OrderingSpec, t: OrderingSpec, i: nat, j: nat)
    requires CompilesTo(specs, Compiled(hs)) && s in specs && t in specs && i < |hs| && j < |hs|
    requires hs[i] == s.handler && hs[j] == t.handler && i != j
    requires Free(specs, hs[..if i < j then i else j], s) && Free(specs, hs[..if i < j then i else j], t)
    ensures s.stage < t.stage ==> i < j
    ensures s.stage == t.stage && s.priority > t.priority ==> i < j
    ensures s.stage == t.stage && s.priority == t.priority && TextPrecedes(s.plugin.text, t.plugin.text) ==> i < j
    ensures
      (s.stage == t.stage && s.priority == t.priority && s.plugin == t.plugin
       && TextPrecedes(s.handler.text, t.handler.text)) ==> i < j
  {
    CompiledIsChosenInTurn(specs, hs);
    if j < i {
      assert ChosenAt(specs, hs, j) && s.handler !in hs[..j];
      assert ComesFirst(t, s);
      ComesFirstIsKeyLess(t, s);
      ComesFirstIsKeyLess(s, t);
      KeysDoNotPrecedeEachOther(KeyOf(s), KeyOf(t));
      LessDiffers(s.plugin.text, t.plugin.text);
      LessDiffers(s.handler.text, t.handler.text);
      TextTrichotomy(s.plugin.text, s.plugin.text);
    }
  }

  // ---------------------------------------------------------------- the report

  /** Registrations counted twice are reported before missing handlers, and each kind by its text. */
  lemma ReportByFields(specs: seq<OrderingSpec>, i: nat, j: nat)
    requires i < j < |Report(specs)|
    ensures var d, e := Report(specs)[i], Report(specs)[j];
      && !d.OrderingCycle? && !e.OrderingCycle?
      && (d.MissingDependency? ==> e.MissingDependency?)
      && (d.DuplicateHandler? == e.DuplicateHandler? ==> !TextPrecedes(Text(e), Text(d)))
  {
    var r := Report(specs);
    PrintOrder();
    SortAscends(Collected(specs), PrintsBefore);
    ReportIsFaults(specs, r[i]);
    ReportIsFaults(specs, r[j]);
    assert r[i] in r && r[j] in r;
    assert !PrintsBefore(r[j], r[i]);
    LessDiffers(Text(r[j]), Text(r[i]));
    CodesAscend();
  }

  lemma CodesAscend()
    ensures TextLess("PIPE001", "PIPE002") && !TextLess("PIPE002", "PIPE001")
  {
    assert DifferAt("PIPE001", "PIPE002", 6);
    assert TextPrecedes("PIPE001", "PIPE002");
    LessDiffers("PIPE001", "PIPE002");
    TextTrichotomy("PIPE001", "PIPE002");
  }

  lemma Joins(a: string, b: string, c: string, d: string, e: string)
    ensures a + (b + (c + (d + e))) == a + b + c + d + e
  {
  }

  lemma PrintedParts()
    ensures ON_MISSING + ("gate" + "`") == "` constraint on missing handler `gate`"
    ensures MISSING + "audit" + DECLARES == "error[PIPE002]: handler `audit` declares `"
  {
  }

  /** The printed text of a missing dependency. */
  lemma PrintedMissing(relation: Relation)
    ensures Text(MissingDependency(Id("audit"), Id("gate"), relation))
         == "error[PIPE002]: handler `audit` declares `" + (if relation == Before then "before" else "after")
            + "` constraint on missing handler `gate`"
  {
    PrintedParts();
    var name := if relation == Before then "before" else "after";
    Joins(MISSING, "audit", DECLARES, name, ON_MISSING + ("gate" + "`"));
  }

  lemma PrintedCount()
    ensures REGISTERED + (Digits(12) + TIMES) == "` is registered 12 times"
  {
    assert Digits(1) == "1" && Digits(12) == "12";
  }

  /** The printed text of a repeated registration. */
  lemma PrintedDuplicate()
    ensures Text(DuplicateHandler(Id("audit"), 12))
         == "error[PIPE001]: handler `" + ("audit" + "` is registered 12 times")
  {
    PrintedCount();
  }
}
