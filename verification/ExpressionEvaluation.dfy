/** Evaluation of conditions over JSON-like environments, and what an evaluation can depend on. */
module ExpressionEvaluation {
  import opened Ordered
  import opened Expression

  datatype Json =
    | JsonNull
    | JsonBoolean(flag: bool)
    | JsonNumber(number: int)
    | JsonString(text: string)
    | JsonArray(items: seq<Json>)
    | JsonObject(fields: map<string, Json>)

  datatype Kind = NullKind | BooleanKind | NumberKind | StringKind | ArrayKind | ObjectKind

  datatype EvaluationError =
    | MissingPath(path: seq<Segment>)
    | ExpectedBoolean(actual: Kind)
    | TypeMismatch(left: Kind, right: Kind)
    | UnsupportedOrdering(actual: Kind)

  datatype Evaluated<+T> = Fine(value: T) | Wrong(error: EvaluationError)

  // ---------------------------------------------------------------- evaluation

  function Select(v: Json, s: Segment): Option<Json> {
    match s
    case Key(k) => if v.JsonObject? && k in v.fields then Some(v.fields[k]) else None
    case Index(i) => if v.JsonArray? && i < |v.items| then Some(v.items[i]) else None
  }

  /** The value a path selects. */
  function Lookup(environment: Json, path: seq<Segment>): Option<Json> {
    if path == [] then Some(environment)
    else match Select(environment, path[0])
         case None => None
         case Some(next) => Lookup(next, path[1..])
  }

  /** Path traversal as the evaluator performs it. */
  method LookupPath(environment: Json, path: seq<Segment>) returns (r: Option<Json>)
    ensures r == Lookup(environment, path)
  {
    var current := environment;
    for i := 0 to |path|
      invariant Lookup(environment, path) == Lookup(current, path[i..])
    {
      assert path[i..][0] == path[i] && path[i..][1..] == path[i + 1..];
      var next := Select(current, path[i]);
      if next.None? {
        return None;
      }
      current := next.value;
    }
    return Some(current);
  }

  function KindOf(l: Literal): Kind {
    match l
    case Null => NullKind
    case Boolean(_) => BooleanKind
    case Number(_) => NumberKind
    case Text(_) => StringKind
  }

  function Resolve(o: Operand, environment: Json): Evaluated<Literal> {
    match o
    case Constant(l) => Fine(l)
    case Path(p) =>
      match Lookup(environment, p)
      case None => Wrong(MissingPath(p))
      case Some(JsonNull) => Fine(Null)
      case Some(JsonBoolean(b)) => Fine(Boolean(b))
      case Some(JsonNumber(n)) => Fine(Number(n))
      case Some(JsonString(t)) => Fine(Text(t))
      case Some(JsonArray(_)) => Wrong(ExpectedBoolean(ArrayKind))
      case Some(JsonObject(_)) => Wrong(ExpectedBoolean(ObjectKind))
  }

  /** Whether the left value precedes the right one; defined for numbers and strings. */
  predicate Precedes(l: Literal, r: Literal)
    requires KindOf(l) == KindOf(r) && (l.Number? || l.Text?)
  {
    if l.Number? then l.number < r.number else TextLess(l.text, r.text)
  }

  function CompareValues(l: Literal, op: Operator, r: Literal): Evaluated<bool> {
    if KindOf(l) != KindOf(r) then Wrong(TypeMismatch(KindOf(l), KindOf(r)))
    else if op.Equal? then Fine(l == r)
    else if op.NotEqual? then Fine(l != r)
    else if !l.Number? && !l.Text? then Wrong(UnsupportedOrdering(KindOf(l)))
    else if op.Less? then Fine(Precedes(l, r))
    else if op.LessOrEqual? then Fine(!Precedes(r, l))
    else if op.Greater? then Fine(Precedes(r, l))
    else Fine(!Precedes(l, r))
  }

  function Evaluate(e: Expr, environment: Json): Evaluated<bool> {
    match e
    case Value(o) =>
      (match Resolve(o, environment)
       case Wrong(error) => Wrong(error)
       case Fine(Boolean(b)) => Fine(b)
       case Fine(other) => Wrong(ExpectedBoolean(KindOf(other))))
    case Not(inner) =>
      (match Evaluate(inner, environment)
       case Wrong(error) => Wrong(error)
       case Fine(b) => Fine(!b))
    case And(left, right) =>
      (match Evaluate(left, environment)
       case Wrong(error) => Wrong(error)
       case Fine(b) => if b then Evaluate(right, environment) else Fine(false))
    case Or(left, right) =>
      (match Evaluate(left, environment)
       case Wrong(error) => Wrong(error)
       case Fine(b) => if b then Fine(true) else Evaluate(right, environment))
    case Compare(l, op, r) =>
      (match Resolve(l, environment)
       case Wrong(error) => Wrong(error)
       case Fine(a) =>
         match Resolve(r, environment)
         case Wrong(error) => Wrong(error)
         case Fine(b) => CompareValues(a, op, b))
    case Exists(p) => Fine(Lookup(environment, p).Some?)
  }

  // ---------------------------------------------------------------- roots

  function PathRoots(p: seq<Segment>): set<string> {
    if p != [] && p[0].Key? then {p[0].key} else {}
  }

  function OperandRoots(o: Operand): set<string> {
    if o.Path? then PathRoots(o.segments) else {}
  }

  /** The environment keys an expression mentions first in its paths. */
  function Roots(e: Expr): set<string> {
    match e
    case Value(o) => OperandRoots(o)
    case Not(inner) => Roots(inner)
    case And(left, right) => Roots(left) + Roots(right)
    case Or(left, right) => Roots(left) + Roots(right)
    case Compare(l, _, r) => OperandRoots(l) + OperandRoots(r)
    case Exists(p) => PathRoots(p)
  }

  function OperandPaths(o: Operand): seq<seq<Segment>> {
    if o.Path? then [o.segments] else []
  }

  /** The paths of an expression, as often as they occur, from left to right. */
  function Paths(e: Expr): seq<seq<Segment>> {
    match e
    case Value(o) => OperandPaths(o)
    case Not(inner) => Paths(inner)
    case And(left, right) => Paths(left) + Paths(right)
    case Or(left, right) => Paths(left) + Paths(right)
    case Compare(l, _, r) => OperandPaths(l) + OperandPaths(r)
    case Exists(p) => [p]
  }

  predicate StartsWith(p: seq<Segment>, k: string) {
    p != [] && p[0] == Key(k)
  }

  /** A key is a root exactly when some path of the expression starts with it. */
  lemma {:induction false} RootsArePathStarts(e: Expr, k: string)
    ensures k in Roots(e) <==> exists p :: p in Paths(e) && StartsWith(p, k)
  {
    match e
    case Value(o) =>
      if o.Path? { assert o.segments in Paths(e); }
    case Not(inner) => RootsArePathStarts(inner, k);
    case And(left, right) =>
      RootsArePathStarts(left, k);
      RootsArePathStarts(right, k);
    case Or(left, right) =>
      RootsArePathStarts(left, k);
      RootsArePathStarts(right, k);
    case Compare(l, _, r) =>
      if l.Path? { assert l.segments in Paths(e); }
      if r.Path? { assert r.segments in Paths(e); }
    case Exists(p) => assert p in Paths(e);
  }

  /** Two object environments give the same value, or both no value, to every listed key. */
  ghost predicate AgreeOn(a: Json, b: Json, keys: set<string>) {
    && a.JsonObject? && b.JsonObject?
    && forall k :: k in keys ==> Select(a, Key(k)) == Select(b, Key(k))
  }

  lemma PathReadsRoot(p: seq<Segment>, max: nat, a: Json, b: Json)
    requires PathWithin(p, max) && AgreeOn(a, b, PathRoots(p))
    ensures Lookup(a, p) == Lookup(b, p)
  {
    assert p[0] == Key(p[0].key) && p[0].key in PathRoots(p);
  }

  lemma OperandReadsRoots(o: Operand, max: nat, a: Json, b: Json)
    requires OperandWithin(o, max) && AgreeOn(a, b, OperandRoots(o))
    ensures Resolve(o, a) == Resolve(o, b)
  {
    if o.Path? {
      PathReadsRoot(o.segments, max, a, b);
    }
  }

  /** Evaluation depends on the environment only through the collected roots: environments that
      agree on them give the same value or the same error. */
  lemma {:induction false} EvaluationReadsOnlyRoots(e: Expr, max: nat, a: Json, b: Json)
    requires PathsWithin(e, max) && AgreeOn(a, b, Roots(e))
    ensures Evaluate(e, a) == Evaluate(e, b)
  {
    match e
    case Value(o) => OperandReadsRoots(o, max, a, b);
    case Not(inner) => EvaluationReadsOnlyRoots(inner, max, a, b);
    case And(left, right) =>
      EvaluationReadsOnlyRoots(left, max, a, b);
      EvaluationReadsOnlyRoots(right, max, a, b);
    case Or(left, right) =>
      EvaluationReadsOnlyRoots(left, max, a, b);
      EvaluationReadsOnlyRoots(right, max, a, b);
    case Compare(l, _, r) =>
      OperandReadsRoots(l, max, a, b);
      OperandReadsRoots(r, max, a, b);
    case Exists(p) => PathReadsRoot(p, max, a, b);
  }

  // ---------------------------------------------------------------- access check

  /** Environment roots every condition may read. */
  const RUNTIME_ROOTS: set<string> := {"session", "model", "runtime", "budget", "node", "loop"}

  datatype Access =
    | Allowed
    | UndeclaredConditionVariable(variable: string)
    | ConditionVariableNotDeclaredRead(variable: string)

  function Allowance(declared: set<string>, variables: set<string>): set<string> {
    RUNTIME_ROOTS + (declared * variables)
  }

  /** Of the listed roots, the first outside the allowance is the least. */
  lemma FirstOffence(roots: set<string>, ids: seq<Id>, i: nat, allowance: set<string>)
    requires i < |ids| && (forall k :: k in roots ==> Id(k) in ids)
    requires forall j, l :: 0 <= j < l < |ids| ==> Ordered.Less(ids[j], ids[l])
    requires forall j :: 0 <= j < i ==> ids[j].text in allowance
    ensures forall k :: k in roots && k !in allowance ==> k == ids[i].text || TextLess(ids[i].text, k)
  {
    forall k | k in roots && k !in allowance ensures k == ids[i].text || TextLess(ids[i].text, k) {
      var j :| 0 <= j < |ids| && ids[j] == Id(k);
      if j > i {
        assert Ordered.Less(ids[i], ids[j]);
      }
    }
  }

  /** The access check of a graph that opted into variables: roots in order, first offence wins. */
  method ValidateAccess(e: Expr, declared: set<string>, variables: set<string>) returns (r: Access)
    ensures r.Allowed? <==> Roots(e) <= Allowance(declared, variables)
    ensures r.UndeclaredConditionVariable? ==>
      r.variable in Roots(e) && r.variable !in RUNTIME_ROOTS && r.variable !in variables
    ensures r.ConditionVariableNotDeclaredRead? ==>
      r.variable in Roots(e) && r.variable !in RUNTIME_ROOTS && r.variable in variables && r.variable !in declared
    ensures !r.Allowed? ==>
      forall k :: k in Roots(e) && k !in Allowance(declared, variables) ==> k == r.variable || TextLess(r.variable, k)
  {
    var ids := Ascending(set k | k in Roots(e) :: Id(k));
    assert forall k :: k in Roots(e) ==> Id(k) in ids;
    for i := 0 to |ids|
      invariant forall j :: 0 <= j < i ==> ids[j].text in Allowance(declared, variables)
    {
      var root := ids[i].text;
      assert ids[i] in ids;
      if root in RUNTIME_ROOTS {
        continue;
      }
      if root !in variables || root !in declared {
        FirstOffence(Roots(e), ids, i, Allowance(declared, variables));
        return if root !in variables then UndeclaredConditionVariable(root)
               else ConditionVariableNotDeclaredRead(root);
      }
    }
    forall k | k in Roots(e) ensures k in Allowance(declared, variables) {
      var j :| 0 <= j < |ids| && ids[j] == Id(k);
    }
    return Allowed;
  }

  /** An accepted condition depends only on the runtime roots and the declared reads. */
  lemma AcceptedConditionIsConfined(e: Expr, max: nat, declared: set<string>, variables: set<string>, a: Json, b: Json)
    requires PathsWithin(e, max) && Roots(e) <= Allowance(declared, variables)
    requires AgreeOn(a, b, RUNTIME_ROOTS + declared)
    ensures Evaluate(e, a) == Evaluate(e, b)
  {
    assert Roots(e) <= RUNTIME_ROOTS + declared;
    EvaluationReadsOnlyRoots(e, max, a, b);
  }
}
