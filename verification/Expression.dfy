/** Expressions of the constrained condition language: syntax, limits and measures. */
module Expression {

  datatype Limits = Limits(maxDepth: nat, maxNodes: nat, maxPathSegments: nat)

  datatype Segment = Key(key: string) | Index(index: nat)

  datatype Literal = Null | Boolean(value: bool) | Number(number: int) | Text(text: string)

  datatype Operand = Constant(literal: Literal) | Path(segments: seq<Segment>)

  datatype Operator = Equal | NotEqual | Less | LessOrEqual | Greater | GreaterOrEqual

  datatype Expr =
    | Value(operand: Operand)
    | Not(inner: Expr)
    | And(left: Expr, right: Expr)
    | Or(left: Expr, right: Expr)
    | Compare(lhs: Operand, operator: Operator, rhs: Operand)
    | Exists(path: seq<Segment>)

  /** Array indices are machine words. */
  const INDEX_BOUND: int := 0x1_0000_0000_0000_0000

  function Max(a: nat, b: nat): nat {
    if a < b then b else a
  }

  /** The depth the compiler bounds. */
  function Depth(e: Expr): (d: nat)
    ensures d >= 1
  {
    match e
    case Value(_) => 1
    case Compare(_, _, _) => 1
    case Exists(_) => 1
    case Not(inner) => 1 + Depth(inner)
    case And(left, right) => 1 + Max(Depth(left), Depth(right))
    case Or(left, right) => 1 + Max(Depth(left), Depth(right))
  }

  /** The number of syntax nodes. */
  function NodeCount(e: Expr): (n: nat)
    ensures n >= 1
  {
    match e
    case Value(_) => 1
    case Compare(_, _, _) => 1
    case Exists(_) => 1
    case Not(inner) => 1 + NodeCount(inner)
    case And(left, right) => 1 + NodeCount(left) + NodeCount(right)
    case Or(left, right) => 1 + NodeCount(left) + NodeCount(right)
  }

  /** Starts with a key, holds at most `max` segments, and its indices fit a machine word. */
  predicate PathWithin(p: seq<Segment>, max: nat) {
    && 1 <= |p| <= max
    && p[0].Key?
    && forall i :: 0 <= i < |p| && p[i].Index? ==> p[i].index < INDEX_BOUND
  }

  predicate OperandWithin(o: Operand, max: nat) {
    o.Path? ==> PathWithin(o.segments, max)
  }

  predicate PathsWithin(e: Expr, max: nat) {
    match e
    case Value(o) => OperandWithin(o, max)
    case Compare(l, _, r) => OperandWithin(l, max) && OperandWithin(r, max)
    case Exists(p) => PathWithin(p, max)
    case Not(inner) => PathsWithin(inner, max)
    case And(left, right) => PathsWithin(left, max) && PathsWithin(right, max)
    case Or(left, right) => PathsWithin(left, max) && PathsWithin(right, max)
  }

  predicate ValidLimits(limits: Limits) {
    limits.maxNodes > 0 && limits.maxDepth > 0 && limits.maxPathSegments > 0
  }

  /** Every bound the compiler promises for an accepted expression. */
  predicate WithinLimits(e: Expr, limits: Limits) {
    && NodeCount(e) <= limits.maxNodes
    && Depth(e) <= limits.maxDepth
    && PathsWithin(e, limits.maxPathSegments)
  }
}
