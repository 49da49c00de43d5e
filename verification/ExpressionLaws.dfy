/** What written conditions mean, from tokens to values: the comparison signs, precedence and
    parentheses. */
module ExpressionLaws {
  import opened Ordered
  import opened Expression
  import opened ExpressionParser
  import opened ExpressionGrammar
  import opened ExpressionEvaluation

  /** A token list with its positions, closed by the end marker. */
  function Listed(ks: seq<TokenKind>): (toks: seq<Token>)
    ensures |toks| == |ks| + 1
  {
    var all := ks + [End];
    seq(|all|, i requires 0 <= i < |all| => Token(all[i], i))
  }

  /** The value of a written condition, when it parses. */
  function Value(ks: seq<TokenKind>, limits: Limits, environment: Json): Option<Evaluated<bool>> {
    match Parse(Listed(ks), limits)
    case Success(e) => Some(Evaluate(e, environment))
    case Failure(_) => None
  }

  lemma WrittenIsRead(ks: seq<TokenKind>, limits: Limits, t: Tree)
    requires ValidLimits(limits) && WellFormed(t) && ks == Yield(t)
    requires GuardDepth(t) <= limits.maxDepth && WithinLimits(Erase(t), limits)
    ensures Parse(Listed(ks), limits) == Success(Erase(t))
  {
    NoEndInside(t);
    var toks := Listed(ks);
    forall i | 0 <= i < |ks| ensures toks[0 + i].kind == ks[i] {
      assert toks[i].kind == (ks + [End])[i];
    }
    assert toks[|ks|].kind == End;
    AtAll(toks, 0, ks);
    AcceptsDerivations(toks, limits, t);
  }

  /** Two integers with one of the six signs between them. */
  predicate Holds(n: int, sign: TokenKind, m: int) {
    || (sign.EqualToken? && n == m) || (sign.NotEqualToken? && n != m)
    || (sign.LessToken? && n < m) || (sign.LessOrEqualToken? && n <= m)
    || (sign.GreaterToken? && n > m) || (sign.GreaterOrEqualToken? && n >= m)
  }

  lemma ComparisonsMean(n: int, sign: TokenKind, m: int, limits: Limits, environment: Json)
    requires ValidLimits(limits) && OperatorOf(sign) != []
    ensures Value([NumberToken(n), sign, NumberToken(m)], limits, environment) == Some(Fine(Holds(n, sign, m)))
  {
    var op := OperatorOf(sign)[0];
    var e := Compare(Constant(Number(n)), op, Constant(Number(m)));
    assert Yield(Leaf(e)) == [NumberToken(n), sign, NumberToken(m)];
    WrittenIsRead([NumberToken(n), sign, NumberToken(m)], limits, Leaf(e));
  }

  // ---------------------------------------------------------------- composing written conditions

  /** The tokens are written as `t`, of limited depth and size, which gives `r` in the environment. */
  ghost predicate Says(t: Tree, ks: seq<TokenKind>, depth: nat, nodes: nat, max: nat, environment: Json, r: bool) {
    && WellFormed(t) && Yield(t) == ks
    && GuardDepth(t) <= depth && Depth(Erase(t)) <= depth && NodeCount(Erase(t)) <= nodes
    && PathsWithin(Erase(t), max) && Evaluate(Erase(t), environment) == Fine(r)
  }

  lemma SaysValue(t: Tree, ks: seq<TokenKind>, depth: nat, nodes: nat, limits: Limits, environment: Json, r: bool)
    requires Says(t, ks, depth, nodes, limits.maxPathSegments, environment, r)
    requires ValidLimits(limits) && depth <= limits.maxDepth && nodes <= limits.maxNodes
    ensures Value(ks, limits, environment) == Some(Fine(r))
  {
    WrittenIsRead(ks, limits, t);
  }

  lemma NotSays(t: Tree, ks: seq<TokenKind>, d: nat, n: nat, max: nat, environment: Json, r: bool)
    requires Says(t, ks, d, n, max, environment, r) && Strength(t) >= 2
    ensures Says(Negation(t), [Bang] + ks, d + 1, n + 1, max, environment, !r)
  {
  }

  lemma GroupSays(t: Tree, ks: seq<TokenKind>, d: nat, n: nat, max: nat, environment: Json, r: bool)
    requires Says(t, ks, d, n, max, environment, r)
    ensures Says(Group(t), [LeftParen] + ks + [RightParen], d + 1, n, max, environment, r)
  {
  }

  lemma AndSays(t: Tree, u: Tree, ks: seq<TokenKind>, js: seq<TokenKind>, d: nat, n: nat, m: nat, max: nat,
                environment: Json, r: bool, q: bool)
    requires Says(t, ks, d, n, max, environment, r) && Says(u, js, d, m, max, environment, q)
    requires Strength(t) >= 1 && Strength(u) >= 2
    ensures Says(Conjunction(t, u), ks + [AndToken] + js, d + 1, n + m + 1, max, environment, r && q)
  {
  }

  lemma OrSays(t: Tree, u: Tree, ks: seq<TokenKind>, js: seq<TokenKind>, d: nat, n: nat, m: nat, max: nat,
               environment: Json, r: bool, q: bool)
    requires Says(t, ks, d, n, max, environment, r) && Says(u, js, d, m, max, environment, q) && Strength(u) >= 1
    ensures Says(Disjunction(t, u), ks + [OrToken] + js, d + 1, n + m + 1, max, environment, r || q)
  {
  }

  function Written(b: bool): TokenKind {
    if b then TrueToken else FalseToken
  }

  function Literally(b: bool): Tree {
    Leaf(Expr.Value(Constant(Boolean(b))))
  }

  lemma LiteralSays(b: bool, d: nat, max: nat, environment: Json)
    requires d >= 1
    ensures Says(Literally(b), [Written(b)], d, 1, max, environment, b)
  {
  }

  predicate Roomy(limits: Limits) {
    limits.maxDepth >= 4 && limits.maxNodes >= 6 && limits.maxPathSegments >= 2
  }

  lemma NegatedSays(c: bool, max: nat, environment: Json)
    ensures Says(Negation(Literally(c)), [Bang, Written(c)], 2, 2, max, environment, !c)
  {
    LiteralSays(c, 1, max, environment);
    NotSays(Literally(c), [Written(c)], 1, 1, max, environment, c);
    assert [Bang] + [Written(c)] == [Bang, Written(c)];
  }

  function BothLiterally(b: bool, c: bool): Tree {
    Conjunction(Literally(b), Negation(Literally(c)))
  }

  lemma BothSays(b: bool, c: bool, max: nat, environment: Json)
    ensures Says(BothLiterally(b, c), [Written(b), AndToken, Bang, Written(c)], 3, 4, max, environment, b && !c)
  {
    LiteralSays(b, 2, max, environment);
    NegatedSays(c, max, environment);
    AndSays(Literally(b), Negation(Literally(c)), [Written(b)], [Bang, Written(c)], 2, 1, 2, max, environment, b, !c);
    assert [Written(b)] + [AndToken] + [Bang, Written(c)] == [Written(b), AndToken, Bang, Written(c)];
  }

  function PrecedenceTree(a: bool, b: bool, c: bool): Tree {
    Disjunction(Literally(a), BothLiterally(b, c))
  }

  lemma PrecedenceTokens(a: bool, b: bool, c: bool)
    ensures [Written(a)] + [OrToken] + [Written(b), AndToken, Bang, Written(c)]
         == [Written(a), OrToken, Written(b), AndToken, Bang, Written(c)]
  {
  }

  lemma PrecedenceSays(a: bool, b: bool, c: bool, max: nat, environment: Json)
    ensures Says(PrecedenceTree(a, b, c), [Written(a)] + [OrToken] + [Written(b), AndToken, Bang, Written(c)], 4, 6,
                 max, environment, a || (b && !c))
  {
    LiteralSays(a, 3, max, environment);
    BothSays(b, c, max, environment);
    var both := [Written(b), AndToken, Bang, Written(c)];
    OrSays(Literally(a), BothLiterally(b, c), [Written(a)], both, 3, 1, 4, max, environment, a, b && !c);
  }

  /** Negation binds tightest, then conjunction, then disjunction. */
  lemma PrecedenceMeans(a: bool, b: bool, c: bool, limits: Limits, environment: Json)
    requires Roomy(limits)
    ensures Value([Written(a), OrToken, Written(b), AndToken, Bang, Written(c)], limits, environment)
         == Some(Fine(a || (b && !c)))
  {
    PrecedenceSays(a, b, c, limits.maxPathSegments, environment);
    PrecedenceTokens(a, b, c);
    var ks := [Written(a), OrToken, Written(b), AndToken, Bang, Written(c)];
    SaysValue(PrecedenceTree(a, b, c), ks, 4, 6, limits, environment, a || (b && !c));
  }

  function EitherLiterally(a: bool, b: bool): Tree {
    Disjunction(Literally(a), Literally(b))
  }

  lemma EitherSays(a: bool, b: bool, max: nat, environment: Json)
    ensures Says(EitherLiterally(a, b), [Written(a), OrToken, Written(b)], 2, 3, max, environment, a || b)
  {
    LiteralSays(a, 1, max, environment);
    LiteralSays(b, 1, max, environment);
    OrSays(Literally(a), Literally(b), [Written(a)], [Written(b)], 1, 1, 1, max, environment, a, b);
    assert [Written(a)] + [OrToken] + [Written(b)] == [Written(a), OrToken, Written(b)];
  }

  lemma GroupedSays(a: bool, b: bool, max: nat, environment: Json)
    ensures Says(Group(EitherLiterally(a, b)), [LeftParen, Written(a), OrToken, Written(b), RightParen], 3, 3, max,
                 environment, a || b)
  {
    EitherSays(a, b, max, environment);
    var either := [Written(a), OrToken, Written(b)];
    GroupSays(EitherLiterally(a, b), either, 2, 3, max, environment, a || b);
    assert [LeftParen] + either + [RightParen] == [LeftParen, Written(a), OrToken, Written(b), RightParen];
  }

  function ParenthesesTree(a: bool, b: bool, c: bool): Tree {
    Conjunction(Group(EitherLiterally(a, b)), Literally(c))
  }

  lemma ParenthesesSay(a: bool, b: bool, c: bool, max: nat, environment: Json)
    ensures Says(ParenthesesTree(a, b, c),
                 [LeftParen, Written(a), OrToken, Written(b), RightParen, AndToken, Written(c)], 4, 5, max,
                 environment, (a || b) && c)
  {
    GroupedSays(a, b, max, environment);
    LiteralSays(c, 3, max, environment);
    var grouped := [LeftParen, Written(a), OrToken, Written(b), RightParen];
    AndSays(Group(EitherLiterally(a, b)), Literally(c), grouped, [Written(c)], 3, 3, 1, max, environment, a || b, c);
    assert grouped + [AndToken] + [Written(c)]
        == [LeftParen, Written(a), OrToken, Written(b), RightParen, AndToken, Written(c)];
  }

  /** Parentheses come first. */
  lemma ParenthesesMean(a: bool, b: bool, c: bool, limits: Limits, environment: Json)
    requires Roomy(limits)
    ensures Value([LeftParen, Written(a), OrToken, Written(b), RightParen, AndToken, Written(c)], limits, environment)
         == Some(Fine((a || b) && c))
  {
    ParenthesesSay(a, b, c, limits.maxPathSegments, environment);
    var ks := [LeftParen, Written(a), OrToken, Written(b), RightParen, AndToken, Written(c)];
    SaysValue(ParenthesesTree(a, b, c), ks, 4, 5, limits, environment, (a || b) && c);
  }

  /** A session, and how often it was retried. */
  function SessionOf(ready: bool, retries: int): Json {
    JsonObject(map["session" := JsonObject(map["ready" := JsonBoolean(ready)]), "retries" := JsonNumber(retries)])
  }

  const READY: seq<Segment> := [Key("session"), Key("ready")]
  const RETRIES: seq<Segment> := [Key("retries")]

  lemma ReadyIsFound(ready: bool, retries: int)
    ensures Lookup(SessionOf(ready, retries), READY) == Some(JsonBoolean(ready))
  {
    var session := JsonObject(map["ready" := JsonBoolean(ready)]);
    assert "session"[0] != "retries"[0];
    assert Select(SessionOf(ready, retries), Key("session")) == Some(session);
    assert READY[1..] == [Key("ready")];
    assert Lookup(session, [Key("ready")]) == Lookup(JsonBoolean(ready), [Key("ready")][1..]);
    assert [Key("ready")][1..] == [];
  }

  lemma ReadyIsWritten()
    ensures Yield(Leaf(Expr.Value(Path(READY)))) == [Identifier("session"), Dot, Identifier("ready")]
  {
    assert READY[1..] == [Key("ready")] && READY[1..][1..] == [];
    assert TailTokens(READY[1..]) == SegmentTokens(Key("ready")) + TailTokens([]);
  }

  lemma ReadySays(ready: bool, retries: int, d: nat, max: nat)
    requires d >= 1 && max >= 2
    ensures Says(Leaf(Expr.Value(Path(READY))), [Identifier("session"), Dot, Identifier("ready")], d, 1, max,
                 SessionOf(ready, retries), ready)
  {
    ReadyIsFound(ready, retries);
    ReadyIsWritten();
  }

  lemma RetriesSay(ready: bool, retries: int, bound: int, d: nat, max: nat)
    requires d >= 1 && max >= 2
    ensures Says(Leaf(Compare(Path(RETRIES), Operator.Less, Constant(Number(bound)))),
                 [Identifier("retries"), LessToken, NumberToken(bound)], d, 1, max, SessionOf(ready, retries),
                 retries < bound)
  {
    assert RETRIES[1..] == [];
    assert Lookup(SessionOf(ready, retries), RETRIES) == Lookup(JsonNumber(retries), RETRIES[1..]);
  }

  /** `session.ready && retries < bound` is true exactly of a ready session with retries left. */
  lemma ReadyWithRetriesLeft(ready: bool, retries: int, bound: int, limits: Limits)
    requires Roomy(limits)
    ensures Value([Identifier("session"), Dot, Identifier("ready"), AndToken, Identifier("retries"), LessToken,
                   NumberToken(bound)], limits, SessionOf(ready, retries)) == Some(Fine(ready && retries < bound))
  {
    var max, environment := limits.maxPathSegments, SessionOf(ready, retries);
    var l, r := Leaf(Expr.Value(Path(READY))), Leaf(Compare(Path(RETRIES), Operator.Less, Constant(Number(bound))));
    var ks := [Identifier("session"), Dot, Identifier("ready")];
    var js := [Identifier("retries"), LessToken, NumberToken(bound)];
    ReadySays(ready, retries, 1, max);
    RetriesSay(ready, retries, bound, 1, max);
    AndSays(l, r, ks, js, 1, 1, 1, max, environment, ready, retries < bound);
    SaysValue(Conjunction(l, r), ks + [AndToken] + js, 2, 3, limits, environment, ready && retries < bound);
    assert ks + [AndToken] + js == [Identifier("session"), Dot, Identifier("ready"), AndToken, Identifier("retries"),
                                    LessToken, NumberToken(bound)];
  }
}
