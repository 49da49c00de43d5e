/** What conditions mean: derivations of results, stated apart from the evaluator, and the proof that
    the evaluator computes exactly the derivable results. */
module ExpressionMeaning {
  import opened Ordered
  import opened Expression
  import opened ExpressionEvaluation

  // ---------------------------------------------------------------- paths

  /** `child` stands in `parent` under a key, or at an index. */
  predicate IsChild(parent: Json, s: Segment, child: Json) {
    match s
    case Key(k) => parent.JsonObject? && k in parent.fields && child == parent.fields[k]
    case Index(i) => parent.JsonArray? && i < |parent.items| && child == parent.items[i]
  }

  /** The values passed along the first segments of a path, from the environment on. */
  ghost predicate Follows(environment: Json, path: seq<Segment>, passed: seq<Json>) {
    && 0 < |passed| <= |path| + 1 && passed[0] == environment
    && forall i, j :: 0 <= i < j < |passed| && j == i + 1 ==> IsChild(passed[i], path[i], passed[j])
  }

  /** The path leads from the environment to the value. */
  ghost predicate LeadsTo(environment: Json, path: seq<Segment>, v: Json) {
    exists passed :: Follows(environment, path, passed) && |passed| == |path| + 1 && passed[|path|] == v
  }

  // ---------------------------------------------------------------- operands

  /** The scalar that a JSON value is. */
  predicate IsScalar(v: Json, l: Literal) {
    || (v.JsonNull? && l == Null)
    || (v.JsonBoolean? && l == Boolean(v.flag))
    || (v.JsonNumber? && l == Number(v.number))
    || (v.JsonString? && l == Text(v.text))
  }

  /** An operand has a scalar value, or the error of a path that leads nowhere or to a container. */
  ghost predicate HasValue(o: Operand, environment: Json, r: Evaluated<Literal>) {
    match o
    case Constant(l) => r == Fine(l)
    case Path(p) =>
      || (exists v :: LeadsTo(environment, p, v) && r.Fine? && IsScalar(v, r.value))
      || (exists v :: LeadsTo(environment, p, v) && v.JsonArray? && r == Wrong(ExpectedBoolean(ArrayKind)))
      || (exists v :: LeadsTo(environment, p, v) && v.JsonObject? && r == Wrong(ExpectedBoolean(ObjectKind)))
      || ((forall v :: !LeadsTo(environment, p, v)) && r == Wrong(MissingPath(p)))
  }

  /** What comparing two integers with an operator says. */
  predicate NumbersCompare(n: int, op: Operator, m: int) {
    || (op.Equal? && n == m) || (op.NotEqual? && n != m)
    || (op.Less? && n < m) || (op.LessOrEqual? && n <= m)
    || (op.Greater? && n > m) || (op.GreaterOrEqual? && n >= m)
  }

  ghost predicate TextsCompare(a: string, op: Operator, b: string) {
    || (op.Equal? && a == b) || (op.NotEqual? && a != b)
    || (op.Less? && TextPrecedes(a, b)) || (op.LessOrEqual? && !TextPrecedes(b, a))
    || (op.Greater? && TextPrecedes(b, a)) || (op.GreaterOrEqual? && !TextPrecedes(a, b))
  }

  predicate IsKind(l: Literal, k: Kind) {
    || (l.Null? && k.NullKind?) || (l.Boolean? && k.BooleanKind?)
    || (l.Number? && k.NumberKind?) || (l.Text? && k.StringKind?)
  }

  /** Two scalars compare as integers or texts; other scalars only for equality; and only with their own kind. */
  ghost predicate Compares(a: Literal, op: Operator, b: Literal, r: Evaluated<bool>) {
    if a.Number? && b.Number? then r == Fine(NumbersCompare(a.number, op, b.number))
    else if a.Text? && b.Text? then r == Fine(TextsCompare(a.text, op, b.text))
    else if (a.Null? && b.Null?) || (a.Boolean? && b.Boolean?) then
      if op.Equal? then r == Fine(a == b)
      else if op.NotEqual? then r == Fine(a != b)
      else r.Wrong? && r.error.UnsupportedOrdering? && IsKind(a, r.error.actual)
    else r.Wrong? && r.error.TypeMismatch? && IsKind(a, r.error.left) && IsKind(b, r.error.right)
  }

  // ---------------------------------------------------------------- derivations

  /** How a result is derived: which sides of a connective were needed, and what they gave. */
  datatype Derivation =
    | Atomic
    | Inverted(inner: Derivation, given: Evaluated<bool>)
    | LeftDecides(left: Derivation, given: Evaluated<bool>)
    | RightDecides(left: Derivation, right: Derivation, given: Evaluated<bool>)

  ghost predicate AtomGives(e: Expr, environment: Json, r: Evaluated<bool>) {
    match e
    case Value(o) =>
      || (exists b :: HasValue(o, environment, Fine(Boolean(b))) && r == Fine(b))
      || (exists l: Literal, k :: HasValue(o, environment, Fine(l)) && !l.Boolean? && IsKind(l, k)
                                  && r == Wrong(ExpectedBoolean(k)))
      || (exists x :: HasValue(o, environment, Wrong(x)) && r == Wrong(x))
    case Compare(lhs, op, rhs) =>
      || (exists x :: HasValue(lhs, environment, Wrong(x)) && r == Wrong(x))
      || (exists a, x :: HasValue(lhs, environment, Fine(a)) && HasValue(rhs, environment, Wrong(x)) && r == Wrong(x))
      || (exists a, b :: HasValue(lhs, environment, Fine(a)) && HasValue(rhs, environment, Fine(b))
                         && Compares(a, op, b, r))
    case Exists(p) => r == Fine(exists v :: LeadsTo(environment, p, v))
    case _ => false
  }

  /** The derivation shows that `e` gives `r` in the environment. */
  ghost predicate Derives(d: Derivation, e: Expr, environment: Json, r: Evaluated<bool>) {
    match d
    case Atomic => AtomGives(e, environment, r)
    case Inverted(inner, given) =>
      && e.Not? && Derives(inner, e.inner, environment, given)
      && (given == Fine(true) ==> r == Fine(false))
      && (given == Fine(false) ==> r == Fine(true))
      && (given.Wrong? ==> r == given)
    case LeftDecides(left, given) =>
      && (e.And? || e.Or?) && Derives(left, e.left, environment, given) && r == given
      && (e.And? ==> given != Fine(true)) && (e.Or? ==> given != Fine(false))
    case RightDecides(left, right, given) =>
      && (e.And? || e.Or?) && Derives(left, e.left, environment, given) && Derives(right, e.right, environment, r)
      && (e.And? ==> given == Fine(true)) && (e.Or? ==> given == Fine(false))
  }

  // ---------------------------------------------------------------- lookups lead where paths lead

  lemma {:induction false} FollowedIsUnique(environment: Json, path: seq<Segment>, p: seq<Json>, q: seq<Json>, i: nat)
    requires Follows(environment, path, p) && Follows(environment, path, q) && i < |p| && i < |q|
    ensures p[i] == q[i]
  {
    if i == 0 {
    } else {
      FollowedIsUnique(environment, path, p, q, i - 1);
      assert IsChild(p[i - 1], path[i - 1], p[i]) && IsChild(q[i - 1], path[i - 1], q[i]);
    }
  }

  lemma FollowFirst(environment: Json, path: seq<Segment>, next: Json, passed: seq<Json>)
    requires path != [] && IsChild(environment, path[0], next) && Follows(next, path[1..], passed)
    ensures Follows(environment, path, [environment] + passed)
  {
    var whole := [environment] + passed;
    forall i, j | 0 <= i < j < |whole| && j == i + 1 ensures IsChild(whole[i], path[i], whole[j]) {
      if i > 0 {
        assert IsChild(passed[i - 1], path[1..][i - 1], passed[j - 1]);
      }
    }
  }

  lemma FollowRest(environment: Json, path: seq<Segment>, passed: seq<Json>)
    requires path != [] && Follows(environment, path, passed) && |passed| > 1
    ensures IsChild(environment, path[0], passed[1]) && Follows(passed[1], path[1..], passed[1..])
  {
    assert IsChild(passed[0], path[0], passed[1]);
    var rest := passed[1..];
    forall i, j | 0 <= i < j < |rest| && j == i + 1 ensures IsChild(rest[i], path[1..][i], rest[j]) {
      assert IsChild(passed[i + 1], path[i + 1], passed[j + 1]);
    }
  }

  /** Looking a path up finds exactly the value the path leads to. */
  lemma {:induction false} LookupLeads(environment: Json, path: seq<Segment>, v: Json)
    ensures Lookup(environment, path) == Some(v) <==> LeadsTo(environment, path, v)
    decreases |path|
  {
    if path == [] {
      assert Follows(environment, path, [environment]);
    } else {
      var next := Select(environment, path[0]);
      if Lookup(environment, path) == Some(v) {
        LookupLeads(next.value, path[1..], v);
        var passed :| Follows(next.value, path[1..], passed) && |passed| == |path| && passed[|path| - 1] == v;
        FollowFirst(environment, path, next.value, passed);
        assert ([environment] + passed)[|path|] == v;
      }
      if passed :| Follows(environment, path, passed) && |passed| == |path| + 1 && passed[|path|] == v {
        FollowRest(environment, path, passed);
        assert passed[1..][|path[1..]|] == v;
        LookupLeads(passed[1], path[1..], v);
      }
    }
  }

  lemma ResolveHasValue(o: Operand, environment: Json, r: Evaluated<Literal>)
    ensures Resolve(o, environment) == r <==> HasValue(o, environment, r)
  {
    if o.Path? {
      forall v ensures Lookup(environment, o.segments) == Some(v) <==> LeadsTo(environment, o.segments, v) {
        LookupLeads(environment, o.segments, v);
      }
    }
  }

  // ---------------------------------------------------------------- comparisons

  lemma CompareValuesCompares(a: Literal, op: Operator, b: Literal, r: Evaluated<bool>)
    ensures CompareValues(a, op, b) == r <==> Compares(a, op, b, r)
  {
    if a.Text? && b.Text? {
      LessDiffers(a.text, b.text);
      LessDiffers(b.text, a.text);
    }
  }

  lemma ValueIsEvaluated(o: Operand, environment: Json, r: Evaluated<bool>)
    ensures Evaluate(Value(o), environment) == r <==> AtomGives(Value(o), environment, r)
  {
    ResolveHasValue(o, environment, Resolve(o, environment));
    forall v ensures Resolve(o, environment) == v <==> HasValue(o, environment, v) {
      ResolveHasValue(o, environment, v);
    }
  }

  /** The alternatives of a comparison, once both operands are known. */
  lemma ComparisonGives(l: Operand, op: Operator, r: Operand, environment: Json, result: Evaluated<bool>,
                        a: Evaluated<Literal>, b: Evaluated<Literal>)
    requires forall v :: HasValue(l, environment, v) <==> v == a
    requires forall v :: HasValue(r, environment, v) <==> v == b
    ensures AtomGives(Compare(l, op, r), environment, result) <==>
      if a.Wrong? then result == Wrong(a.error)
      else if b.Wrong? then result == Wrong(b.error)
      else Compares(a.value, op, b.value, result)
  {
    assert HasValue(l, environment, a) && HasValue(r, environment, b);
  }

  lemma ComparisonIsEvaluated(l: Operand, op: Operator, r: Operand, environment: Json, result: Evaluated<bool>)
    ensures Evaluate(Compare(l, op, r), environment) == result <==> AtomGives(Compare(l, op, r), environment, result)
  {
    var a, b := Resolve(l, environment), Resolve(r, environment);
    forall v ensures HasValue(l, environment, v) <==> v == a {
      ResolveHasValue(l, environment, v);
    }
    forall v ensures HasValue(r, environment, v) <==> v == b {
      ResolveHasValue(r, environment, v);
    }
    ComparisonGives(l, op, r, environment, result, a, b);
    if a.Fine? && b.Fine? {
      CompareValuesCompares(a.value, op, b.value, result);
    }
  }

  lemma AtomIsEvaluated(e: Expr, environment: Json, r: Evaluated<bool>)
    requires e.Value? || e.Compare? || e.Exists?
    ensures Evaluate(e, environment) == r <==> AtomGives(e, environment, r)
  {
    match e
    case Value(o) => ValueIsEvaluated(o, environment, r);
    case Compare(lhs, op, rhs) => ComparisonIsEvaluated(lhs, op, rhs, environment, r);
    case Exists(p) =>
      forall v ensures Lookup(environment, p) == Some(v) <==> LeadsTo(environment, p, v) {
        LookupLeads(environment, p, v);
      }
  }

  // ---------------------------------------------------------------- main result

  lemma {:induction false} DerivedIsEvaluated(d: Derivation, e: Expr, environment: Json, r: Evaluated<bool>)
    requires Derives(d, e, environment, r)
    ensures Evaluate(e, environment) == r
  {
    match d
    case Atomic => AtomIsEvaluated(e, environment, r);
    case Inverted(inner, given) => DerivedIsEvaluated(inner, e.inner, environment, given);
    case LeftDecides(left, given) => DerivedIsEvaluated(left, e.left, environment, given);
    case RightDecides(left, right, given) =>
      DerivedIsEvaluated(left, e.left, environment, given);
      DerivedIsEvaluated(right, e.right, environment, r);
  }

  lemma {:induction false} EvaluatedIsDerived(e: Expr, environment: Json) returns (d: Derivation)
    ensures Derives(d, e, environment, Evaluate(e, environment))
    decreases e, 1
  {
    match e
    case Not(inner) =>
      var sub := EvaluatedIsDerived(inner, environment);
      d := Inverted(sub, Evaluate(inner, environment));
    case And(left, right) =>
      d := ConnectiveDerived(e, environment);
    case Or(left, right) =>
      d := ConnectiveDerived(e, environment);
    case _ =>
      d := Atomic;
      AtomIsEvaluated(e, environment, Evaluate(e, environment));
  }

  lemma {:induction false} ConnectiveDerived(e: Expr, environment: Json) returns (d: Derivation)
    requires e.And? || e.Or?
    ensures Derives(d, e, environment, Evaluate(e, environment))
    decreases e, 0
  {
    var given := Evaluate(e.left, environment);
    var left := EvaluatedIsDerived(e.left, environment);
    if given == Fine(e.And?) {
      var right := EvaluatedIsDerived(e.right, environment);
      d := RightDecides(left, right, given);
    } else {
      d := LeftDecides(left, given);
    }
  }

  /** Some derivation yields `r`. */
  ghost predicate Derivable(e: Expr, environment: Json, r: Evaluated<bool>) {
    exists d :: Derives(d, e, environment, r)
  }

  lemma DerivableIsEvaluated(e: Expr, environment: Json, r: Evaluated<bool>)
    requires Derivable(e, environment, r)
    ensures Evaluate(e, environment) == r
  {
    var d :| Derives(d, e, environment, r);
    DerivedIsEvaluated(d, e, environment, r);
  }

  lemma EvaluatedIsDerivable(e: Expr, environment: Json)
    ensures Derivable(e, environment, Evaluate(e, environment))
  {
    var d := EvaluatedIsDerived(e, environment);
  }

  /** Evaluation gives `r` exactly when some derivation yields `r`. */
  lemma EvaluationIsDerivation(e: Expr, environment: Json, r: Evaluated<bool>)
    ensures Evaluate(e, environment) == r <==> Derivable(e, environment, r)
  {
    EvaluatedIsDerivable(e, environment);
    if Derivable(e, environment, r) {
      DerivableIsEvaluated(e, environment, r);
    }
  }

  /** A conjunction holds exactly when both sides do, and a disjunction fails exactly when both do. */
  lemma ConnectivesMean(l: Expr, r: Expr, environment: Json)
    ensures Evaluate(And(l, r), environment) == Fine(true)
       <==> Evaluate(l, environment) == Fine(true) && Evaluate(r, environment) == Fine(true)
    ensures Evaluate(Or(l, r), environment) == Fine(false)
       <==> Evaluate(l, environment) == Fine(false) && Evaluate(r, environment) == Fine(false)
    ensures Evaluate(l, environment) == Fine(false) ==> Evaluate(And(l, r), environment) == Fine(false)
    ensures Evaluate(l, environment) == Fine(true) ==> Evaluate(Or(l, r), environment) == Fine(true)
    ensures Evaluate(l, environment).Wrong? ==>
      Evaluate(And(l, r), environment) == Evaluate(l, environment) == Evaluate(Or(l, r), environment)
    ensures Evaluate(Not(l), environment) == Fine(true) <==> Evaluate(l, environment) == Fine(false)
  {
  }
}
