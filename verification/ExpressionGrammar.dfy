/** The concrete grammar of expressions, and the proof that the parser decides it exactly. */
module ExpressionGrammar {
  import opened Expression
  import opened ExpressionParser

  /** A derivation: parentheses are explicit, operators keep their grammar level. */
  datatype Tree =
    | Leaf(expr: Expr)
    | Negation(body: Tree)
    | Group(body: Tree)
    | Conjunction(left: Tree, right: Tree)
    | Disjunction(left: Tree, right: Tree)

  /** Binding strength: disjunction loosest, then conjunction, then everything else. */
  function Strength(t: Tree): nat {
    match t
    case Disjunction(_, _) => 0
    case Conjunction(_, _) => 1
    case _ => 2
  }

  predicate IsLeaf(e: Expr) {
    e.Value? || e.Compare? || e.Exists?
  }

  /** Operators associate to the left and bind by strength. */
  predicate WellFormed(t: Tree) {
    match t
    case Leaf(e) => IsLeaf(e)
    case Negation(b) => WellFormed(b) && Strength(b) >= 2
    case Group(b) => WellFormed(b)
    case Conjunction(l, r) => WellFormed(l) && WellFormed(r) && Strength(l) >= 1 && Strength(r) >= 2
    case Disjunction(l, r) => WellFormed(l) && WellFormed(r) && Strength(r) >= 1
  }

  /** The expression a derivation denotes: parentheses disappear. */
  function Erase(t: Tree): Expr {
    match t
    case Leaf(e) => e
    case Negation(b) => Not(Erase(b))
    case Group(b) => Erase(b)
    case Conjunction(l, r) => And(Erase(l), Erase(r))
    case Disjunction(l, r) => Or(Erase(l), Erase(r))
  }

  function SegmentTokens(s: Segment): seq<TokenKind> {
    match s
    case Key(k) => [Dot, Identifier(k)]
    case Index(i) => [LeftBracket, NumberToken(i), RightBracket]
  }

  function TailTokens(p: seq<Segment>): seq<TokenKind> {
    if p == [] then [] else SegmentTokens(p[0]) + TailTokens(p[1..])
  }

  function PathTokens(p: seq<Segment>): seq<TokenKind> {
    if p == [] || !p[0].Key? then [] else [Identifier(p[0].key)] + TailTokens(p[1..])
  }

  function OperandTokens(o: Operand): seq<TokenKind> {
    match o
    case Constant(Null) => [NullToken]
    case Constant(Boolean(b)) => [if b then TrueToken else FalseToken]
    case Constant(Number(n)) => [NumberToken(n)]
    case Constant(Text(t)) => [StringToken(t)]
    case Path(p) => PathTokens(p)
  }

  function OperatorToken(o: Operator): (k: TokenKind)
    ensures OperatorOf(k) == [o]
  {
    match o
    case Equal => EqualToken
    case NotEqual => NotEqualToken
    case Less => LessToken
    case LessOrEqual => LessOrEqualToken
    case Greater => GreaterToken
    case GreaterOrEqual => GreaterOrEqualToken
  }

  function LeafTokens(e: Expr): seq<TokenKind>
    requires IsLeaf(e)
  {
    match e
    case Value(o) => OperandTokens(o)
    case Compare(l, op, r) => OperandTokens(l) + [OperatorToken(op)] + OperandTokens(r)
    case Exists(p) => [ExistsToken, LeftParen] + PathTokens(p) + [RightParen]
  }

  /** The token string of a derivation. */
  function Yield(t: Tree): seq<TokenKind>
    requires WellFormed(t)
  {
    match t
    case Leaf(e) => LeafTokens(e)
    case Negation(b) => [Bang] + Yield(b)
    case Group(b) => [LeftParen] + Yield(b) + [RightParen]
    case Conjunction(l, r) => Yield(l) + [AndToken] + Yield(r)
    case Disjunction(l, r) => Yield(l) + [OrToken] + Yield(r)
  }

  /** The recursion depth the parser needs: only negations and parentheses nest. */
  function GuardDepth(t: Tree): (d: nat)
    ensures d >= 1
  {
    match t
    case Leaf(_) => 1
    case Negation(b) => 1 + GuardDepth(b)
    case Group(b) => 1 + GuardDepth(b)
    case Conjunction(l, r) => Max(GuardDepth(l), GuardDepth(r))
    case Disjunction(l, r) => Max(GuardDepth(l), GuardDepth(r))
  }

  // ---------------------------------------------------------------- reading at a position

  /** The token kinds `ks` stand at position `i`. */
  ghost predicate At(toks: seq<Token>, i: nat, ks: seq<TokenKind>)
    decreases |ks|
  {
    if ks == [] then i <= |toks| else i < |toks| && toks[i].kind == ks[0] && At(toks, i + 1, ks[1..])
  }

  lemma {:induction false} AtSplit(toks: seq<Token>, i: nat, a: seq<TokenKind>, b: seq<TokenKind>)
    ensures At(toks, i, a + b) <==> At(toks, i, a) && At(toks, i + |a|, b)
    decreases |a|
  {
    if a == [] {
      assert a + b == b;
      assert At(toks, i, b) ==> i <= |toks|;
    } else {
      assert (a + b)[1..] == a[1..] + b;
      AtSplit(toks, i + 1, a[1..], b);
    }
  }

  lemma {:induction false} AtKind(toks: seq<Token>, i: nat, ks: seq<TokenKind>, k: nat)
    requires At(toks, i, ks) && k < |ks|
    ensures i + k < |toks| && toks[i + k].kind == ks[k]
    decreases k
  {
    if k == 0 {
    } else {
      AtKind(toks, i + 1, ks[1..], k - 1);
    }
  }

  lemma {:induction false} AtAll(toks: seq<Token>, i: nat, ks: seq<TokenKind>)
    requires i + |ks| <= |toks| && forall k :: 0 <= k < |ks| ==> toks[i + k].kind == ks[k]
    ensures At(toks, i, ks)
    decreases |ks|
  {
    if ks == [] {
    } else {
      assert toks[i + 0].kind == ks[0];
      forall k | 0 <= k < |ks[1..]| ensures toks[i + 1 + k].kind == ks[1..][k] {
        assert toks[i + (k + 1)].kind == ks[k + 1];
      }
      AtAll(toks, i + 1, ks[1..]);
    }
  }

  lemma AtHead(toks: seq<Token>, i: nat, ks: seq<TokenKind>)
    requires At(toks, i, ks) && |ks| > 0
    ensures i < |toks| && toks[i].kind == ks[0]
  {
  }

  lemma AtPoint(toks: seq<Token>, i: nat, k: TokenKind)
    ensures At(toks, i, [k]) <==> i < |toks| && toks[i].kind == k
  {
  }

  lemma Joined(toks: seq<Token>, start: nat, a: seq<TokenKind>, k: TokenKind, b: seq<TokenKind>)
    ensures At(toks, start, a + [k] + b) <==>
      At(toks, start, a) && start + |a| < |toks| && toks[start + |a|].kind == k && At(toks, start + |a| + 1, b)
  {
    AtPoint(toks, start + |a|, k);
    AtSplit(toks, start, a, [k]);
    AtSplit(toks, start, a + [k], b);
  }

  /** Tokens that would continue an operand or a comparison. */
  predicate Continues(k: TokenKind) {
    k.Dot? || k.LeftBracket? || OperatorOf(k) != []
  }

  // ---------------------------------------------------------------- paths and leaves

  lemma ReadsSegment(toks: seq<Token>, max: nat, start: nat, segments: seq<Segment>, i: nat, s: Segment,
                     more: seq<Segment>, j: nat)
    requires Terminated(toks) && |segments| < max && (s.Index? ==> s.index < INDEX_BOUND)
    requires At(toks, i, SegmentTokens(s)) && j == i + |SegmentTokens(s)| < |toks| && more == segments + [s]
    ensures ReadPathTail(toks, max, start, segments, i) == ReadPathTail(toks, max, start, more, j)
  {
    AtHead(toks, i, SegmentTokens(s));
    AtKind(toks, i, SegmentTokens(s), 1);
    if s.Index? {
      AtKind(toks, i, SegmentTokens(s), 2);
    }
  }

  /** Reading the tokens of a path's tail extends the segments read so far, never past the bound. */
  lemma {:induction false} ReadsTail(toks: seq<Token>, max: nat, start: nat, before: seq<Segment>,
                                     rest: seq<Segment>, i: nat, j: nat)
    requires Terminated(toks) && |before + rest| <= max
    requires forall s :: s in rest && s.Index? ==> s.index < INDEX_BOUND
    requires At(toks, i, TailTokens(rest)) && j == i + |TailTokens(rest)| < |toks|
    ensures ReadPathTail(toks, max, start, before, i) == ReadPathTail(toks, max, start, before + rest, j)
    decreases rest
  {
    if rest == [] {
      assert before + rest == before;
    } else {
      var mid := i + |SegmentTokens(rest[0])|;
      AtSplit(toks, i, SegmentTokens(rest[0]), TailTokens(rest[1..]));
      ReadsSegment(toks, max, start, before, i, rest[0], before + [rest[0]], mid);
      assert before + [rest[0]] + rest[1..] == before + rest;
      ReadsTail(toks, max, start, before + [rest[0]], rest[1..], mid, j);
    }
  }

  lemma ReadsPath(toks: seq<Token>, max: nat, p: seq<Segment>, i: nat)
    requires Terminated(toks) && PathWithin(p, max)
    requires At(toks, i, PathTokens(p)) && i + |PathTokens(p)| < |toks|
    requires !toks[i + |PathTokens(p)|].kind.Dot? && !toks[i + |PathTokens(p)|].kind.LeftBracket?
    ensures ReadPath(toks, max, i) == Done(p, i + |PathTokens(p)|)
  {
    AtSplit(toks, i, [Identifier(p[0].key)], TailTokens(p[1..]));
    AtPoint(toks, i, Identifier(p[0].key));
    assert [Key(p[0].key)] + p[1..] == p;
    ReadsTail(toks, max, toks[i].position, [Key(p[0].key)], p[1..], i + 1, i + |PathTokens(p)|);
  }

  lemma ReadsOperand(toks: seq<Token>, max: nat, o: Operand, i: nat, j: nat)
    requires Terminated(toks) && OperandWithin(o, max)
    requires At(toks, i, OperandTokens(o)) && j == i + |OperandTokens(o)| < |toks|
    requires !toks[j].kind.Dot? && !toks[j].kind.LeftBracket?
    ensures ReadOperand(toks, max, i) == Done(o, j)
  {
    AtHead(toks, i, OperandTokens(o));
    if o.Path? {
      ReadsPath(toks, max, o.segments, i);
    }
  }

  lemma ReadsComparison(toks: seq<Token>, limits: Limits, l: Operand, op: Operator, r: Operand,
                        i: nat, mid: nat, j: nat, n: nat)
    requires Terminated(toks) && n + 1 <= limits.maxNodes
    requires OperandWithin(l, limits.maxPathSegments) && OperandWithin(r, limits.maxPathSegments)
    requires At(toks, i, OperandTokens(l)) && mid == i + |OperandTokens(l)| < |toks|
    requires toks[mid].kind == OperatorToken(op)
    requires At(toks, mid + 1, OperandTokens(r)) && j == mid + 1 + |OperandTokens(r)| < |toks|
    requires !toks[j].kind.Dot? && !toks[j].kind.LeftBracket?
    ensures ReadComparison(toks, limits, i, n) == Ok(Compare(l, op, r), j, n + 1)
  {
    ReadsOperand(toks, limits.maxPathSegments, l, i, mid);
    ReadsOperand(toks, limits.maxPathSegments, r, mid + 1, j);
  }

  lemma ComparisonAt(toks: seq<Token>, l: Operand, op: Operator, r: Operand, i: nat, mid: nat)
    requires At(toks, i, LeafTokens(Compare(l, op, r))) && mid == i + |OperandTokens(l)|
    ensures At(toks, i, OperandTokens(l)) && mid < |toks| && toks[mid].kind == OperatorToken(op)
    ensures At(toks, mid + 1, OperandTokens(r))
    ensures i + |LeafTokens(Compare(l, op, r))| == mid + 1 + |OperandTokens(r)|
  {
    Joined(toks, i, OperandTokens(l), OperatorToken(op), OperandTokens(r));
  }

  lemma ExistsAt(toks: seq<Token>, p: seq<Segment>, i: nat)
    requires At(toks, i, LeafTokens(Exists(p)))
    ensures i + 2 + |PathTokens(p)| < |toks| && At(toks, i + 2, PathTokens(p))
    ensures toks[i].kind.ExistsToken? && toks[i + 1].kind.LeftParen? && toks[i + 2 + |PathTokens(p)|].kind.RightParen?
  {
    var q := PathTokens(p);
    AtSplit(toks, i, [ExistsToken, LeftParen] + q, [RightParen]);
    AtSplit(toks, i, [ExistsToken, LeftParen], q);
    AtKind(toks, i, [ExistsToken, LeftParen], 0);
    AtKind(toks, i, [ExistsToken, LeftParen], 1);
    AtPoint(toks, i + 2 + |q|, RightParen);
  }

  lemma ReadsExists(toks: seq<Token>, limits: Limits, p: seq<Segment>, i: nat, n: nat, depth: nat)
    requires Terminated(toks) && PathWithin(p, limits.maxPathSegments)
    requires At(toks, i, LeafTokens(Exists(p))) && i + |LeafTokens(Exists(p))| < |toks|
    requires n + 1 <= limits.maxNodes
    ensures ReadPrimary(toks, limits, i, n, depth) == Ok(Exists(p), i + |LeafTokens(Exists(p))|, n + 1)
    ensures toks[i].kind.ExistsToken?
  {
    ExistsAt(toks, p, i);
    ReadsPath(toks, limits.maxPathSegments, p, i + 2);
  }

  lemma ReadsLeaf(toks: seq<Token>, limits: Limits, e: Expr, i: nat, n: nat, depth: nat, j: nat)
    requires Terminated(toks) && IsLeaf(e) && PathsWithin(e, limits.maxPathSegments)
    requires At(toks, i, LeafTokens(e)) && j == i + |LeafTokens(e)| < |toks|
    requires !Continues(toks[j].kind) && n + 1 <= limits.maxNodes
    ensures ReadPrimary(toks, limits, i, n, depth) == Ok(e, j, n + 1)
    ensures !toks[i].kind.Bang?
  {
    match e
    case Value(o) =>
      AtHead(toks, i, OperandTokens(o));
      ReadsOperand(toks, limits.maxPathSegments, o, i, j);
    case Compare(l, op, r) =>
      var mid := i + |OperandTokens(l)|;
      ComparisonAt(toks, l, op, r, i, mid);
      AtHead(toks, i, OperandTokens(l));
      ReadsComparison(toks, limits, l, op, r, i, mid, j, n);
    case Exists(p) =>
      ReadsExists(toks, limits, p, i, n, depth);
  }

  // ---------------------------------------------------------------- completeness

  /** The derivation is readable from position `i` within the limits, and stops at a token that
      does not continue it. */
  ghost predicate Readable(toks: seq<Token>, limits: Limits, i: nat, n: nat, depth: nat, t: Tree) {
    && Terminated(toks) && WellFormed(t) && depth >= 1
    && At(toks, i, Yield(t)) && i + |Yield(t)| < |toks|
    && !Continues(toks[i + |Yield(t)|].kind)
    && depth - 1 + GuardDepth(t) <= limits.maxDepth
    && n + NodeCount(Erase(t)) <= limits.maxNodes
    && PathsWithin(Erase(t), limits.maxPathSegments)
  }

  lemma ReadableBody(toks: seq<Token>, limits: Limits, i: nat, n: nat, depth: nat, t: Tree)
    requires Readable(toks, limits, i, n, depth, t) && (t.Negation? || t.Group?)
    ensures t.Negation? ==> toks[i].kind.Bang? && Readable(toks, limits, i + 1, n, depth + 1, t.body)
    ensures t.Group? ==> toks[i].kind.LeftParen? && toks[i + 1 + |Yield(t.body)|].kind.RightParen?
    ensures Readable(toks, limits, i + 1, n, depth + 1, t.body)
  {
    var y := Yield(t.body);
    if t.Negation? {
      AtSplit(toks, i, [Bang], y);
      AtPoint(toks, i, Bang);
    } else {
      AtSplit(toks, i, [LeftParen] + y, [RightParen]);
      AtSplit(toks, i, [LeftParen], y);
      AtPoint(toks, i, LeftParen);
      AtPoint(toks, i + 1 + |y|, RightParen);
    }
  }

  predicate Binary(t: Tree) {
    t.Conjunction? || t.Disjunction?
  }

  lemma SideMeasures(t: Tree, max: nat)
    requires WellFormed(t) && Binary(t) && PathsWithin(Erase(t), max)
    ensures NodeCount(Erase(t)) == NodeCount(Erase(t.left)) + NodeCount(Erase(t.right)) + 1
    ensures GuardDepth(t) >= GuardDepth(t.left) && GuardDepth(t) >= GuardDepth(t.right)
    ensures PathsWithin(Erase(t.left), max) && PathsWithin(Erase(t.right), max)
  {
  }

  lemma SidesAt(toks: seq<Token>, i: nat, t: Tree)
    requires WellFormed(t) && Binary(t)
    requires At(toks, i, Yield(t))
    ensures |Yield(t)| == |Yield(t.left)| + 1 + |Yield(t.right)|
    ensures At(toks, i, Yield(t.left)) && At(toks, i + |Yield(t.left)| + 1, Yield(t.right))
    ensures toks[i + |Yield(t.left)|].kind == if t.Conjunction? then AndToken else OrToken
  {
    if t.Conjunction? {
      assert Yield(t) == Yield(t.left) + [AndToken] + Yield(t.right);
      Joined(toks, i, Yield(t.left), AndToken, Yield(t.right));
    } else {
      assert Yield(t) == Yield(t.left) + [OrToken] + Yield(t.right);
      Joined(toks, i, Yield(t.left), OrToken, Yield(t.right));
    }
  }

  lemma ReadableLeft(toks: seq<Token>, limits: Limits, i: nat, n: nat, depth: nat, t: Tree, mid: nat)
    requires Readable(toks, limits, i, n, depth, t) && Binary(t) && mid == i + |Yield(t.left)|
    ensures Readable(toks, limits, i, n, depth, t.left)
    ensures toks[mid].kind == if t.Conjunction? then AndToken else OrToken
  {
    SidesAt(toks, i, t);
    SideMeasures(t, limits.maxPathSegments);
  }

  /** The right side is readable from where the left one ends, at `mid` with `count` nodes. */
  lemma ReadableRight(toks: seq<Token>, limits: Limits, i: nat, n: nat, depth: nat, t: Tree, mid: nat, count: nat)
    requires Readable(toks, limits, i, n, depth, t) && Binary(t) && EndsAt(i, n, t.left, mid, count)
    ensures i + |Yield(t)| == mid + 1 + |Yield(t.right)|
    ensures n + NodeCount(Erase(t)) == count + NodeCount(Erase(t.right)) + 1
    ensures Readable(toks, limits, mid + 1, count, depth, t.right)
  {
    SidesAt(toks, i, t);
    SideMeasures(t, limits.maxPathSegments);
  }

  lemma AndTailStep(toks: seq<Token>, limits: Limits, left: Expr, i: nat, n: nat, depth: nat,
                    right: Expr, j: nat, m: nat)
    requires Terminated(toks) && i + 1 < |toks| && toks[i].kind.AndToken?
    requires 0 < m <= limits.maxNodes && ReadUnary(toks, limits, i + 1, n, depth) == Ok(right, j, m - 1)
    ensures ReadAndTail(toks, limits, left, i, n, depth) == ReadAndTail(toks, limits, And(left, right), j, m, depth)
  {
  }

  lemma LeafStep(toks: seq<Token>, limits: Limits, i: nat, n: nat, depth: nat, e: Expr, j: nat, m: nat)
    requires Readable(toks, limits, i, n, depth, Leaf(e)) && j == i + |LeafTokens(e)| && m == n + 1
    ensures ReadUnary(toks, limits, i, n, depth) == Ok(e, j, m)
  {
    ReadsLeaf(toks, limits, e, i, n, depth, j);
  }

  lemma NegationStep(toks: seq<Token>, limits: Limits, i: nat, n: nat, depth: nat, inner: Expr, j: nat, m: nat)
    requires Terminated(toks) && i + 1 < |toks| && toks[i].kind.Bang? && depth <= limits.maxDepth
    requires 0 < m <= limits.maxNodes && ReadUnary(toks, limits, i + 1, n, depth + 1) == Ok(inner, j, m - 1)
    ensures ReadUnary(toks, limits, i, n, depth) == Ok(Not(inner), j, m)
  {
  }

  lemma GroupStep(toks: seq<Token>, limits: Limits, i: nat, n: nat, depth: nat, inner: Expr, j: nat, m: nat)
    requires Terminated(toks) && i + 1 < j <= |toks| && toks[i].kind.LeftParen? && depth <= limits.maxDepth
    requires toks[j - 1].kind.RightParen?
    requires ReadOr(toks, limits, i + 1, n, depth + 1) == ReadOrTail(toks, limits, inner, j - 1, m, depth + 1)
    ensures ReadUnary(toks, limits, i, n, depth) == Ok(inner, j, m)
  {
    assert ReadOrTail(toks, limits, inner, j - 1, m, depth + 1) == Ok(inner, j - 1, m);
  }

  lemma OrTailStep(toks: seq<Token>, limits: Limits, left: Expr, i: nat, n: nat, depth: nat,
                   right: Expr, j: nat, m: nat)
    requires Terminated(toks) && i + 1 < |toks| && toks[i].kind.OrToken?
    requires 0 < m <= limits.maxNodes && ReadAnd(toks, limits, i + 1, n, depth) == Ok(right, j, m - 1)
    ensures ReadOrTail(toks, limits, left, i, n, depth) == ReadOrTail(toks, limits, Or(left, right), j, m, depth)
  {
  }

  /** Where reading a derivation ends: the cursor after it and the node counter after it. */
  ghost predicate EndsAt(i: nat, n: nat, t: Tree, j: nat, m: nat) {
    WellFormed(t) && j == i + |Yield(t)| && m == n + NodeCount(Erase(t))
  }

  lemma {:induction false} ReadsNegation(toks: seq<Token>, limits: Limits, i: nat, n: nat, depth: nat, t: Tree,
                                         j: nat, m: nat)
    requires Readable(toks, limits, i, n, depth, t) && t.Negation? && EndsAt(i, n, t, j, m)
    ensures ReadUnary(toks, limits, i, n, depth) == Ok(Erase(t), j, m)
    decreases t, 0
  {
    ReadableBody(toks, limits, i, n, depth, t);
    ReadsUnary(toks, limits, i + 1, n, depth + 1, t.body, j, m - 1);
    NegationStep(toks, limits, i, n, depth, Erase(t.body), j, m);
  }

  lemma {:induction false} ReadsGroup(toks: seq<Token>, limits: Limits, i: nat, n: nat, depth: nat, t: Tree, j: nat,
                                      m: nat)
    requires Readable(toks, limits, i, n, depth, t) && t.Group? && EndsAt(i, n, t, j, m)
    ensures ReadUnary(toks, limits, i, n, depth) == Ok(Erase(t), j, m)
    decreases t, 0
  {
    ReadableBody(toks, limits, i, n, depth, t);
    ReadsOr(toks, limits, i + 1, n, depth + 1, t.body, j - 1, m);
    GroupStep(toks, limits, i, n, depth, Erase(t.body), j, m);
  }

  lemma {:induction false} ReadsUnary(toks: seq<Token>, limits: Limits, i: nat, n: nat, depth: nat, t: Tree, j: nat,
                                      m: nat)
    requires Readable(toks, limits, i, n, depth, t) && Strength(t) >= 2 && EndsAt(i, n, t, j, m)
    ensures ReadUnary(toks, limits, i, n, depth) == Ok(Erase(t), j, m)
    decreases t, 1
  {
    match t
    case Leaf(e) => LeafStep(toks, limits, i, n, depth, e, j, m);
    case Negation(_) => ReadsNegation(toks, limits, i, n, depth, t, j, m);
    case Group(_) => ReadsGroup(toks, limits, i, n, depth, t, j, m);
  }

  lemma {:induction false} ReadsAnd(toks: seq<Token>, limits: Limits, i: nat, n: nat, depth: nat, t: Tree, j: nat,
                                    m: nat)
    requires Readable(toks, limits, i, n, depth, t) && Strength(t) >= 1 && EndsAt(i, n, t, j, m)
    ensures ReadAnd(toks, limits, i, n, depth) == ReadAndTail(toks, limits, Erase(t), j, m, depth)
    decreases t, 2
  {
    if t.Conjunction? {
      var mid, count := i + |Yield(t.left)|, n + NodeCount(Erase(t.left));
      ReadableLeft(toks, limits, i, n, depth, t, mid);
      ReadableRight(toks, limits, i, n, depth, t, mid, count);
      ReadsAnd(toks, limits, i, n, depth, t.left, mid, count);
      ReadsUnary(toks, limits, mid + 1, count, depth, t.right, j, m - 1);
      AndTailStep(toks, limits, Erase(t.left), mid, count, depth, Erase(t.right), j, m);
    } else {
      ReadsUnary(toks, limits, i, n, depth, t, j, m);
    }
  }

  lemma {:induction false} ReadsOr(toks: seq<Token>, limits: Limits, i: nat, n: nat, depth: nat, t: Tree, j: nat,
                                   m: nat)
    requires Readable(toks, limits, i, n, depth, t) && EndsAt(i, n, t, j, m) && !toks[j].kind.AndToken?
    ensures ReadOr(toks, limits, i, n, depth) == ReadOrTail(toks, limits, Erase(t), j, m, depth)
    decreases t, 3
  {
    if t.Disjunction? {
      var mid, count := i + |Yield(t.left)|, n + NodeCount(Erase(t.left));
      ReadableLeft(toks, limits, i, n, depth, t, mid);
      ReadableRight(toks, limits, i, n, depth, t, mid, count);
      ReadsOr(toks, limits, i, n, depth, t.left, mid, count);
      ReadsAnd(toks, limits, mid + 1, count, depth, t.right, j, m - 1);
      OrTailStep(toks, limits, Erase(t.left), mid, count, depth, Erase(t.right), j, m);
    } else {
      ReadsAnd(toks, limits, i, n, depth, t, j, m);
    }
  }

  // ---------------------------------------------------------------- soundness

  /** A successful read that continues has read one more segment, ending at `j`. */
  lemma SegmentSound(toks: seq<Token>, max: nat, start: nat, segments: seq<Segment>, i: nat)
    returns (s: Segment, j: nat)
    requires Terminated(toks) && i < |toks| && ReadPathTail(toks, max, start, segments, i).Done?
    requires toks[i].kind.Dot? || toks[i].kind.LeftBracket?
    ensures At(toks, i, SegmentTokens(s)) && i < j == i + |SegmentTokens(s)| < |toks|
    ensures |segments| < max && (s.Index? ==> s.index < INDEX_BOUND)
    ensures ReadPathTail(toks, max, start, segments, i) == ReadPathTail(toks, max, start, segments + [s], j)
  {
    if toks[i].kind.Dot? {
      s, j := Key(toks[i + 1].kind.name), i + 2;
    } else {
      s, j := Index(toks[i + 1].kind.number), i + 3;
    }
    forall m | 0 <= m < |SegmentTokens(s)| ensures toks[i + m].kind == SegmentTokens(s)[m] {
      assert m == 0 || m == 1 || m == 2;
    }
    AtAll(toks, i, SegmentTokens(s));
  }

  /** A path's tail read from `i` to `j` is the token string of the segments it added. */
  lemma {:induction false} TailSound(toks: seq<Token>, max: nat, start: nat, segments: seq<Segment>, i: nat)
    returns (more: seq<Segment>, j: nat)
    requires Terminated(toks) && i < |toks| && ReadPathTail(toks, max, start, segments, i).Done?
    requires PathWithin(segments, max)
    ensures ReadPathTail(toks, max, start, segments, i) == Done(segments + more, j)
    ensures PathWithin(segments + more, max)
    ensures At(toks, i, TailTokens(more)) && j == i + |TailTokens(more)|
    decreases |toks| - i
  {
    if !toks[i].kind.Dot? && !toks[i].kind.LeftBracket? {
      more, j := [], i;
      assert segments + [] == segments;
    } else {
      var s, mid := SegmentSound(toks, max, start, segments, i);
      var rest;
      rest, j := TailSound(toks, max, start, segments + [s], mid);
      more := [s] + rest;
      assert segments + [s] + rest == segments + more;
      assert more[1..] == rest;
      AtSplit(toks, i, SegmentTokens(s), TailTokens(rest));
    }
  }

  lemma PathSound(toks: seq<Token>, max: nat, i: nat)
    requires Terminated(toks) && i < |toks| && ReadPath(toks, max, i).Done? && max >= 1
    ensures var r := ReadPath(toks, max, i);
      && PathWithin(r.value, max) && At(toks, i, PathTokens(r.value)) && r.index == i + |PathTokens(r.value)|
  {
    var first := [Key(toks[i].kind.name)];
    var more, j := TailSound(toks, max, toks[i].position, first, i + 1);
    assert (first + more)[1..] == more;
    AtSplit(toks, i, [Identifier(toks[i].kind.name)], TailTokens(more));
    assert At(toks, i, [Identifier(toks[i].kind.name)]);
  }

  lemma OperandSound(toks: seq<Token>, max: nat, i: nat)
    requires Terminated(toks) && i < |toks| && ReadOperand(toks, max, i).Done? && max >= 1
    ensures var r := ReadOperand(toks, max, i);
      && OperandWithin(r.value, max) && At(toks, i, OperandTokens(r.value))
      && r.index == i + |OperandTokens(r.value)|
  {
    if toks[i].kind.Identifier? {
      PathSound(toks, max, i);
    }
  }

  lemma CompareSound(toks: seq<Token>, limits: Limits, i: nat, n: nat, l: Operand, mid: nat, r: Operand, j: nat)
    requires Terminated(toks) && i < mid < |toks| && OperatorOf(toks[mid].kind) != []
    requires ReadOperand(toks, limits.maxPathSegments, i) == Done(l, mid)
    requires mid + 1 < |toks| && ReadOperand(toks, limits.maxPathSegments, mid + 1) == Done(r, j)
    requires At(toks, i, OperandTokens(l)) && mid == i + |OperandTokens(l)|
    requires At(toks, mid + 1, OperandTokens(r)) && j == mid + 1 + |OperandTokens(r)|
    requires n + 1 <= limits.maxNodes
    ensures var e := Compare(l, OperatorOf(toks[mid].kind)[0], r);
      && ReadComparison(toks, limits, i, n) == Ok(e, j, n + 1)
      && At(toks, i, LeafTokens(e)) && j == i + |LeafTokens(e)|
  {
    var op := OperatorOf(toks[mid].kind)[0];
    assert toks[mid].kind == OperatorToken(op);
    Joined(toks, i, OperandTokens(l), OperatorToken(op), OperandTokens(r));
  }

  /** What a successful read of a leaf certifies. */
  ghost predicate LeafCertified(toks: seq<Token>, limits: Limits, i: nat, n: nat, r: Parsed) {
    && r.Ok? && IsLeaf(r.value) && PathsWithin(r.value, limits.maxPathSegments)
    && At(toks, i, LeafTokens(r.value)) && r.index == i + |LeafTokens(r.value)|
    && r.nodes == n + 1 <= limits.maxNodes
  }

  lemma ValueSound(toks: seq<Token>, limits: Limits, i: nat, n: nat, l: Operand, mid: nat)
    requires Terminated(toks) && i < mid < |toks| && OperatorOf(toks[mid].kind) == []
    requires ReadOperand(toks, limits.maxPathSegments, i) == Done(l, mid)
    requires OperandWithin(l, limits.maxPathSegments) && n + 1 <= limits.maxNodes
    requires At(toks, i, OperandTokens(l)) && mid == i + |OperandTokens(l)|
    ensures LeafCertified(toks, limits, i, n, ReadComparison(toks, limits, i, n))
  {
    assert ReadComparison(toks, limits, i, n) == Ok(Value(l), mid, n + 1);
  }

  lemma ComparisonSound(toks: seq<Token>, limits: Limits, i: nat, n: nat)
    requires Terminated(toks) && i < |toks| && ReadComparison(toks, limits, i, n).Ok?
    requires ValidLimits(limits)
    ensures LeafCertified(toks, limits, i, n, ReadComparison(toks, limits, i, n))
  {
    var max := limits.maxPathSegments;
    var left := ReadOperand(toks, max, i);
    OperandSound(toks, max, i);
    if OperatorOf(toks[left.index].kind) == [] {
      ValueSound(toks, limits, i, n, left.value, left.index);
    } else {
      var right := ReadOperand(toks, max, left.index + 1);
      OperandSound(toks, max, left.index + 1);
      CompareSound(toks, limits, i, n, left.value, left.index, right.value, right.index);
    }
  }

  lemma ExistsSound(toks: seq<Token>, limits: Limits, i: nat, n: nat, depth: nat)
    requires Terminated(toks) && i < |toks| && toks[i].kind.ExistsToken? && ValidLimits(limits)
    requires ReadPrimary(toks, limits, i, n, depth).Ok?
    ensures LeafCertified(toks, limits, i, n, ReadPrimary(toks, limits, i, n, depth))
  {
    PathSound(toks, limits.maxPathSegments, i + 2);
    var p := ReadPath(toks, limits.maxPathSegments, i + 2);
    var q := PathTokens(p.value);
    assert At(toks, i, [ExistsToken, LeftParen]);
    AtSplit(toks, i, [ExistsToken, LeftParen], q);
    assert At(toks, i + 2 + |q|, [RightParen]);
    AtSplit(toks, i, [ExistsToken, LeftParen] + q, [RightParen]);
  }

  /** The read succeeded, and `t` is a derivation of what it read, within the limits. */
  ghost predicate Certifies(toks: seq<Token>, limits: Limits, i: nat, n: nat, depth: nat, r: Parsed, t: Tree) {
    match r
    case Ok(e, j, m) =>
      && WellFormed(t) && depth >= 1
      && At(toks, i, Yield(t)) && j == i + |Yield(t)|
      && e == Erase(t)
      && m == n + NodeCount(e) <= limits.maxNodes
      && depth - 1 + GuardDepth(t) <= limits.maxDepth
      && PathsWithin(e, limits.maxPathSegments)
    case Err(_) => false
  }

  lemma {:induction false} PrimarySound(toks: seq<Token>, limits: Limits, i: nat, n: nat, depth: nat) returns (t: Tree)
    requires Terminated(toks) && i < |toks| && ValidLimits(limits) && 1 <= depth <= limits.maxDepth
    requires ReadPrimary(toks, limits, i, n, depth).Ok?
    ensures Certifies(toks, limits, i, n, depth, ReadPrimary(toks, limits, i, n, depth), t) && Strength(t) >= 2
    decreases |toks| - i, 0
  {
    var r := ReadPrimary(toks, limits, i, n, depth);
    if toks[i].kind.LeftParen? {
      var b := OrSound(toks, limits, i + 1, n, depth + 1);
      t := Group(b);
      assert At(toks, i, [LeftParen]);
      AtSplit(toks, i, [LeftParen], Yield(b));
      assert At(toks, i + 1 + |Yield(b)|, [RightParen]);
      AtSplit(toks, i, [LeftParen] + Yield(b), [RightParen]);
    } else if toks[i].kind.ExistsToken? {
      ExistsSound(toks, limits, i, n, depth);
      t := Leaf(r.value);
    } else {
      ComparisonSound(toks, limits, i, n);
      t := Leaf(r.value);
    }
  }

  lemma {:induction false} UnarySound(toks: seq<Token>, limits: Limits, i: nat, n: nat, depth: nat) returns (t: Tree)
    requires Terminated(toks) && i < |toks| && ValidLimits(limits) && depth >= 1
    requires ReadUnary(toks, limits, i, n, depth).Ok?
    ensures Certifies(toks, limits, i, n, depth, ReadUnary(toks, limits, i, n, depth), t) && Strength(t) >= 2
    decreases |toks| - i, 1
  {
    if toks[i].kind.Bang? {
      var b := UnarySound(toks, limits, i + 1, n, depth + 1);
      t := Negation(b);
      assert At(toks, i, [Bang]);
      AtSplit(toks, i, [Bang], Yield(b));
    } else {
      t := PrimarySound(toks, limits, i, n, depth);
    }
  }

  lemma {:induction false} AndTailSound(toks: seq<Token>, limits: Limits, i: nat, n: nat, depth: nat, left: Tree,
                                        start: nat, n0: nat)
    returns (t: Tree)
    requires Terminated(toks) && i < |toks| && ValidLimits(limits)
    requires Certifies(toks, limits, start, n0, depth, Ok(Erase(left), i, n), left) && Strength(left) >= 1
    requires ReadAndTail(toks, limits, Erase(left), i, n, depth).Ok?
    ensures Certifies(toks, limits, start, n0, depth, ReadAndTail(toks, limits, Erase(left), i, n, depth), t)
    ensures Strength(t) >= 1
    decreases |toks| - i, 2
  {
    if !toks[i].kind.AndToken? {
      t := left;
    } else {
      var right := UnarySound(toks, limits, i + 1, n, depth);
      var r := ReadUnary(toks, limits, i + 1, n, depth);
      AndJoins(toks, limits, start, n0, depth, left, i, n, right, r);
      AndTailStep(toks, limits, Erase(left), i, n, depth, r.value, r.index, r.nodes + 1);
      t := AndTailSound(toks, limits, r.index, r.nodes + 1, depth, Conjunction(left, right), start, n0);
    }
  }

  lemma AndJoins(toks: seq<Token>, limits: Limits, start: nat, n0: nat, depth: nat, left: Tree, i: nat, n: nat,
                 right: Tree, r: Parsed)
    requires Certifies(toks, limits, start, n0, depth, Ok(Erase(left), i, n), left) && Strength(left) >= 1
    requires i < |toks| && toks[i].kind.AndToken?
    requires r.Ok? && Certifies(toks, limits, i + 1, n, depth, r, right) && Strength(right) >= 2
    requires r.nodes + 1 <= limits.maxNodes
    ensures Certifies(toks, limits, start, n0, depth,
              Ok(And(Erase(left), r.value), r.index, r.nodes + 1), Conjunction(left, right))
  {
    Joined(toks, start, Yield(left), AndToken, Yield(right));
  }

  lemma OrJoins(toks: seq<Token>, limits: Limits, start: nat, n0: nat, depth: nat, left: Tree, i: nat, n: nat,
                right: Tree, r: Parsed)
    requires Certifies(toks, limits, start, n0, depth, Ok(Erase(left), i, n), left)
    requires i < |toks| && toks[i].kind.OrToken?
    requires r.Ok? && Certifies(toks, limits, i + 1, n, depth, r, right) && Strength(right) >= 1
    requires r.nodes + 1 <= limits.maxNodes
    ensures Certifies(toks, limits, start, n0, depth,
              Ok(Or(Erase(left), r.value), r.index, r.nodes + 1), Disjunction(left, right))
  {
    Joined(toks, start, Yield(left), OrToken, Yield(right));
  }

  lemma {:induction false} AndSound(toks: seq<Token>, limits: Limits, i: nat, n: nat, depth: nat) returns (t: Tree)
    requires Terminated(toks) && i < |toks| && ValidLimits(limits) && depth >= 1
    requires ReadAnd(toks, limits, i, n, depth).Ok?
    ensures Certifies(toks, limits, i, n, depth, ReadAnd(toks, limits, i, n, depth), t) && Strength(t) >= 1
    decreases |toks| - i, 2
  {
    var left := UnarySound(toks, limits, i, n, depth);
    var r := ReadUnary(toks, limits, i, n, depth);
    t := AndTailSound(toks, limits, r.index, r.nodes, depth, left, i, n);
  }

  lemma {:induction false} OrTailSound(toks: seq<Token>, limits: Limits, i: nat, n: nat, depth: nat, left: Tree,
                                       start: nat, n0: nat)
    returns (t: Tree)
    requires Terminated(toks) && i < |toks| && ValidLimits(limits)
    requires Certifies(toks, limits, start, n0, depth, Ok(Erase(left), i, n), left)
    requires ReadOrTail(toks, limits, Erase(left), i, n, depth).Ok?
    ensures Certifies(toks, limits, start, n0, depth, ReadOrTail(toks, limits, Erase(left), i, n, depth), t)
    decreases |toks| - i, 3
  {
    if !toks[i].kind.OrToken? {
      t := left;
    } else {
      var right := AndSound(toks, limits, i + 1, n, depth);
      var r := ReadAnd(toks, limits, i + 1, n, depth);
      OrJoins(toks, limits, start, n0, depth, left, i, n, right, r);
      OrTailStep(toks, limits, Erase(left), i, n, depth, r.value, r.index, r.nodes + 1);
      t := OrTailSound(toks, limits, r.index, r.nodes + 1, depth, Disjunction(left, right), start, n0);
    }
  }

  lemma {:induction false} OrSound(toks: seq<Token>, limits: Limits, i: nat, n: nat, depth: nat) returns (t: Tree)
    requires Terminated(toks) && i < |toks| && ValidLimits(limits) && depth >= 1
    requires ReadOr(toks, limits, i, n, depth).Ok?
    ensures Certifies(toks, limits, i, n, depth, ReadOr(toks, limits, i, n, depth), t)
    decreases |toks| - i, 3
  {
    var left := AndSound(toks, limits, i, n, depth);
    var r := ReadAnd(toks, limits, i, n, depth);
    t := OrTailSound(toks, limits, r.index, r.nodes, depth, left, i, n);
  }

  // ---------------------------------------------------------------- main results

  /** What the lexer produces: one end marker, at the end. */
  ghost predicate IsTokenList(toks: seq<Token>) {
    Terminated(toks) && forall i :: 0 <= i < |toks| - 1 ==> !toks[i].kind.End?
  }

  /** The token list derives `t`, within every limit. */
  ghost predicate Derives(toks: seq<Token>, limits: Limits, t: Tree) {
    && ValidLimits(limits) && WellFormed(t)
    && |toks| == |Yield(t)| + 1 && At(toks, 0, Yield(t))
    && GuardDepth(t) <= limits.maxDepth
    && WithinLimits(Erase(t), limits)
  }

  lemma AcceptsDerivations(toks: seq<Token>, limits: Limits, t: Tree)
    requires IsTokenList(toks) && Derives(toks, limits, t)
    ensures Parse(toks, limits) == Success(Erase(t))
  {
    ReadsOr(toks, limits, 0, 0, 1, t, |Yield(t)|, NodeCount(Erase(t)));
  }

  lemma AcceptedIsDerived(toks: seq<Token>, limits: Limits) returns (t: Tree)
    requires IsTokenList(toks) && Parse(toks, limits).Success?
    ensures Derives(toks, limits, t) && Parse(toks, limits).value == Erase(t)
  {
    t := OrSound(toks, limits, 0, 0, 1);
  }

  /** The parser decides the grammar: it returns `e` exactly when some derivation of the tokens
      within the limits denotes `e`. */
  lemma ParserDecidesGrammar(toks: seq<Token>, limits: Limits, e: Expr)
    requires IsTokenList(toks)
    ensures Parse(toks, limits) == Success(e) <==> exists t :: Derives(toks, limits, t) && Erase(t) == e
  {
    if Parse(toks, limits) == Success(e) {
      var t := AcceptedIsDerived(toks, limits);
    }
    if t :| Derives(toks, limits, t) && Erase(t) == e {
      AcceptsDerivations(toks, limits, t);
    }
  }

  function Wrap(t: Tree, strength: nat): Tree {
    if Strength(t) < strength then Group(t) else t
  }

  /** The derivation of an expression with as few parentheses as possible. */
  function Minimal(e: Expr): (t: Tree)
    ensures WellFormed(t) && Erase(t) == e
    ensures Strength(t) == if e.Or? then 0 else if e.And? then 1 else 2
  {
    match e
    case Not(inner) => Negation(Wrap(Minimal(inner), 2))
    case And(l, r) => Conjunction(Wrap(Minimal(l), 1), Wrap(Minimal(r), 2))
    case Or(l, r) => Disjunction(Wrap(Minimal(l), 0), Wrap(Minimal(r), 1))
    case _ => Leaf(e)
  }

  /** Minimal parentheses never need more recursion than the expression is deep. */
  lemma {:induction false} MinimalFitsDepth(e: Expr)
    ensures GuardDepth(Minimal(e)) <= Depth(e)
    ensures e.And? || e.Or? ==> GuardDepth(Minimal(e)) < Depth(e)
  {
    match e
    case Not(inner) => MinimalFitsDepth(inner);
    case And(l, r) => MinimalFitsDepth(l); MinimalFitsDepth(r);
    case Or(l, r) => MinimalFitsDepth(l); MinimalFitsDepth(r);
    case _ =>
  }

  /** Printed tokens, with their positions, closed by the end marker. */
  function Print(e: Expr): (toks: seq<Token>)
    ensures |toks| == |Yield(Minimal(e))| + 1
  {
    var ks := Yield(Minimal(e)) + [End];
    seq(|ks|, i requires 0 <= i < |ks| => Token(ks[i], i))
  }

  lemma PrintIsTokenList(e: Expr, max: nat)
    requires PathsWithin(e, max)
    ensures IsTokenList(Print(e)) && At(Print(e), 0, Yield(Minimal(e)))
  {
    NoEndInside(Minimal(e));
    forall i | 0 <= i < |Print(e)| - 1 ensures !Print(e)[i].kind.End? {
      assert Print(e)[i].kind == Yield(Minimal(e))[i];
    }
    AtAll(Print(e), 0, Yield(Minimal(e)));
  }

  lemma {:induction false} NoEndInPath(p: seq<Segment>)
    ensures End !in TailTokens(p)
  {
    if p == [] {
    } else {
      NoEndInPath(p[1..]);
    }
  }

  lemma {:induction false} NoEndInside(t: Tree)
    requires WellFormed(t)
    ensures End !in Yield(t)
  {
    match t
    case Leaf(e) =>
      match e {
        case Value(o) => NoEndInOperand(o);
        case Compare(l, _, r) => NoEndInOperand(l); NoEndInOperand(r);
        case Exists(p) => NoEndInOperand(Path(p));
      }
    case Negation(b) => NoEndInside(b);
    case Group(b) => NoEndInside(b);
    case Conjunction(l, r) => NoEndInside(l); NoEndInside(r);
    case Disjunction(l, r) => NoEndInside(l); NoEndInside(r);
  }

  lemma NoEndInOperand(o: Operand)
    ensures End !in OperandTokens(o)
  {
    if o.Path? && o.segments != [] {
      NoEndInPath(o.segments[1..]);
    }
  }

  /** Printing an expression that is within the limits and parsing the tokens gives it back. */
  lemma RoundTrip(e: Expr, limits: Limits)
    requires ValidLimits(limits) && WithinLimits(e, limits)
    ensures IsTokenList(Print(e)) && Parse(Print(e), limits) == Success(e)
  {
    PrintIsTokenList(e, limits.maxPathSegments);
    MinimalFitsDepth(e);
    AcceptsDerivations(Print(e), limits, Minimal(e));
  }

  /** The parser's image is exactly the set of expressions within the limits. */
  lemma ImageIsWithinLimits(e: Expr, limits: Limits)
    requires ValidLimits(limits)
    ensures (exists toks :: IsTokenList(toks) && Parse(toks, limits) == Success(e)) <==> WithinLimits(e, limits)
  {
    if toks :| IsTokenList(toks) && Parse(toks, limits) == Success(e) {
      var t := AcceptedIsDerived(toks, limits);
    }
    if WithinLimits(e, limits) {
      RoundTrip(e, limits);
    }
  }
}
