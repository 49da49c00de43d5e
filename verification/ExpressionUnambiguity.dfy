/** Unique readability: a token list has at most one derivation, parentheses included. */
module ExpressionUnambiguity {
  import opened Expression
  import opened ExpressionParser
  import opened ExpressionGrammar

  function Size(t: Tree): (n: nat)
    ensures n >= 1
  {
    match t
    case Leaf(_) => 1
    case Negation(b) => 1 + Size(b)
    case Group(b) => 1 + Size(b)
    case Conjunction(l, r) => 1 + Size(l) + Size(r)
    case Disjunction(l, r) => 1 + Size(l) + Size(r)
  }

  /** The position after a derivation that starts at `i`. */
  function EndOf(i: nat, t: Tree): nat
    requires WellFormed(t)
  {
    i + |Yield(t)|
  }

  /** The tokens from `i` on spell `t`, and the next token does not continue an operand. */
  ghost predicate Spells(toks: seq<Token>, max: nat, i: nat, t: Tree) {
    && Terminated(toks) && WellFormed(t) && PathsWithin(Erase(t), max)
    && At(toks, i, Yield(t)) && EndOf(i, t) < |toks| && !Continues(toks[EndOf(i, t)].kind)
  }

  ghost predicate Before(toks: seq<Token>, max: nat, i: nat, t: Tree, k: TokenKind) {
    Spells(toks, max, i, t) && toks[EndOf(i, t)].kind == k
  }

  // ---------------------------------------------------------------- first tokens

  lemma LeafHead(e: Expr, max: nat)
    requires IsLeaf(e) && PathsWithin(e, max)
    ensures |LeafTokens(e)| > 0 && !LeafTokens(e)[0].Bang? && !LeafTokens(e)[0].LeftParen?
  {
    match e
    case Value(o) => OperandHead(o, max);
    case Compare(l, op, r) =>
      OperandHead(l, max);
      assert LeafTokens(e)[0] == OperandTokens(l)[0];
    case Exists(p) => assert LeafTokens(e)[0] == ExistsToken;
  }

  lemma OperandHead(o: Operand, max: nat)
    requires OperandWithin(o, max)
    ensures |OperandTokens(o)| > 0 && !OperandTokens(o)[0].Bang? && !OperandTokens(o)[0].LeftParen?
  {
  }

  /** The first token tells a leaf, a negation and a group apart. */
  lemma HeadTells(toks: seq<Token>, max: nat, i: nat, t: Tree)
    requires Spells(toks, max, i, t) && Strength(t) >= 2
    ensures i < |toks|
    ensures t.Negation? <==> toks[i].kind.Bang?
    ensures t.Group? <==> toks[i].kind.LeftParen?
  {
    match t
    case Leaf(e) =>
      LeafHead(e, max);
      AtHead(toks, i, LeafTokens(e));
    case Negation(b) =>
      assert Yield(t)[0] == Bang;
      AtHead(toks, i, Yield(t));
    case Group(b) =>
      assert Yield(t)[0] == LeftParen;
      AtHead(toks, i, Yield(t));
  }

  lemma SameLeaf(toks: seq<Token>, max: nat, i: nat, e: Expr, f: Expr)
    requires Spells(toks, max, i, Leaf(e)) && Spells(toks, max, i, Leaf(f))
    ensures e == f
  {
    var limits := Limits(1, 1, max);
    ReadsLeaf(toks, limits, e, i, 0, 1, EndOf(i, Leaf(e)));
    ReadsLeaf(toks, limits, f, i, 0, 1, EndOf(i, Leaf(f)));
  }

  lemma NegatedBody(toks: seq<Token>, max: nat, i: nat, t: Tree)
    requires Spells(toks, max, i, t) && t.Negation?
    ensures Spells(toks, max, i + 1, t.body)
  {
    AtSplit(toks, i, [Bang], Yield(t.body));
  }

  lemma GroupedBody(toks: seq<Token>, max: nat, i: nat, t: Tree)
    requires Spells(toks, max, i, t) && t.Group?
    ensures Before(toks, max, i + 1, t.body, RightParen)
  {
    var y := Yield(t.body);
    AtSplit(toks, i, [LeftParen] + y, [RightParen]);
    AtSplit(toks, i, [LeftParen], y);
    AtPoint(toks, i + 1 + |y|, RightParen);
  }

  // ---------------------------------------------------------------- chains of one operator

  /** The operator of a level: disjunction at 0, conjunction at 1. */
  predicate Operates(level: nat, t: Tree) {
    if level == 0 then t.Disjunction? else t.Conjunction?
  }

  function OperatorAt(level: nat): TokenKind {
    if level == 0 then OrToken else AndToken
  }

  /** `t` is `u` or stands to its left in a chain of the level's operator. */
  ghost predicate Opens(level: nat, t: Tree, u: Tree) {
    t == u || (Operates(level, u) && Opens(level, t, u.left))
  }

  lemma Sides(toks: seq<Token>, max: nat, i: nat, t: Tree, level: nat)
    requires Spells(toks, max, i, t) && Operates(level, t)
    ensures Before(toks, max, i, t.left, OperatorAt(level))
    ensures Spells(toks, max, EndOf(i, t.left) + 1, t.right)
    ensures EndOf(EndOf(i, t.left) + 1, t.right) == EndOf(i, t)
  {
    SidesAt(toks, i, t);
    SideMeasures(t, max);
  }

  /** What opens a longer chain is spelled too, and followed by the operator. */
  lemma {:induction false} OpensSpells(toks: seq<Token>, max: nat, i: nat, level: nat, t: Tree, u: Tree)
    requires Spells(toks, max, i, u) && Opens(level, t, u) && t != u
    ensures Before(toks, max, i, t, OperatorAt(level)) && Size(t) < Size(u)
    decreases u
  {
    Sides(toks, max, i, u, level);
    if t == u.left {
    } else {
      OpensSpells(toks, max, i, level, t, u.left);
    }
  }

  /** The next longer chain after `t` towards `u`. */
  lemma {:induction false} NextChain(level: nat, t: Tree, u: Tree) returns (v: Tree)
    requires Opens(level, t, u) && t != u
    ensures Operates(level, v) && v.left == t && Opens(level, v, u) && Size(v) <= Size(u)
    decreases u
  {
    if u.left == t {
      v := u;
    } else {
      v := NextChain(level, t, u.left);
    }
  }

  // ---------------------------------------------------------------- unique readability

  /** The next token does not extend a tree of the level. */
  ghost predicate Closed(toks: seq<Token>, max: nat, i: nat, t: Tree, level: nat) {
    && Spells(toks, max, i, t) && Strength(t) >= level
    && (level <= 1 ==> toks[EndOf(i, t)].kind != AndToken)
    && (level == 0 ==> toks[EndOf(i, t)].kind != OrToken)
  }

  /** A chain of the level that a further operator of the level may extend. */
  ghost predicate Chain(toks: seq<Token>, max: nat, i: nat, t: Tree, level: nat) {
    && Spells(toks, max, i, t) && Strength(t) >= level && level <= 1
    && (level == 0 ==> toks[EndOf(i, t)].kind != AndToken)
  }

  lemma {:induction false} UniqueUnary(toks: seq<Token>, max: nat, i: nat, t: Tree, u: Tree)
    requires Spells(toks, max, i, t) && Spells(toks, max, i, u) && Strength(t) >= 2 && Strength(u) >= 2
    ensures t == u
    decreases Size(t) + Size(u), 0, 0
  {
    HeadTells(toks, max, i, t);
    HeadTells(toks, max, i, u);
    match t
    case Leaf(e) =>
      SameLeaf(toks, max, i, e, u.expr);
    case Negation(b) =>
      NegatedBody(toks, max, i, t);
      NegatedBody(toks, max, i, u);
      UniqueUnary(toks, max, i + 1, b, u.body);
    case Group(b) =>
      GroupedBody(toks, max, i, t);
      GroupedBody(toks, max, i, u);
      Unique(toks, max, i + 1, b, u.body, 0);
  }

  /** Two chains from one position: one opens the other. */
  lemma {:induction false} Comparable(toks: seq<Token>, max: nat, i: nat, t: Tree, u: Tree, level: nat)
    requires Chain(toks, max, i, t, level) && Chain(toks, max, i, u, level)
    ensures Opens(level, t, u) || Opens(level, u, t)
    decreases Size(t) + Size(u), 3 - 2 * level, if Operates(level, u) then 0 else 1
  {
    if Operates(level, u) {
      Sides(toks, max, i, u, level);
      Comparable(toks, max, i, t, u.left, level);
      if !Opens(level, t, u.left) {
        Extended(toks, max, i, t, u, level);
      }
    } else if Operates(level, t) {
      Comparable(toks, max, i, u, t, level);
    } else {
      Unique(toks, max, i, t, u, level + 1);
    }
  }

  /** The right side of a chain is a complete tree of the next level. */
  lemma RightIsClosed(toks: seq<Token>, max: nat, i: nat, u: Tree, level: nat)
    requires Chain(toks, max, i, u, level) && Operates(level, u)
    ensures Closed(toks, max, EndOf(i, u.left) + 1, u.right, level + 1)
  {
    Sides(toks, max, i, u, level);
  }

  lemma PartIsChain(toks: seq<Token>, max: nat, i: nat, v: Tree, t: Tree, level: nat)
    requires Chain(toks, max, i, t, level) && Opens(level, v, t) && Operates(level, v)
    ensures Chain(toks, max, i, v, level)
  {
    if v != t {
      OpensSpells(toks, max, i, level, v, t);
    }
  }

  /** A chain that goes on where `u.left` ends continues with `u.right`. */
  lemma {:induction false} Extended(toks: seq<Token>, max: nat, i: nat, t: Tree, u: Tree, level: nat)
    requires Chain(toks, max, i, t, level) && Chain(toks, max, i, u, level)
    requires Operates(level, u) && Opens(level, u.left, t) && t != u.left
    ensures Opens(level, u, t)
    decreases Size(t) + Size(u), 0, 1
  {
    var v := NextChain(level, u.left, t);
    PartIsChain(toks, max, i, v, t, level);
    RightIsClosed(toks, max, i, v, level);
    RightIsClosed(toks, max, i, u, level);
    Unique(toks, max, EndOf(i, u.left) + 1, v.right, u.right, level + 1);
    assert v == u;
  }

  /** A position spells at most one tree that the next token does not extend. */
  lemma {:induction false} Unique(toks: seq<Token>, max: nat, i: nat, t: Tree, u: Tree, level: nat)
    requires level <= 2 && Closed(toks, max, i, t, level) && Closed(toks, max, i, u, level)
    ensures t == u
    decreases Size(t) + Size(u), 4 - 2 * level, 1
  {
    if level == 2 {
      UniqueUnary(toks, max, i, t, u);
    } else {
      Comparable(toks, max, i, t, u, level);
      if t != u && Opens(level, t, u) {
        OpensSpells(toks, max, i, level, t, u);
      } else if t != u {
        OpensSpells(toks, max, i, level, u, t);
      }
    }
  }

  // ---------------------------------------------------------------- main result

  lemma {:induction false} WiderPaths(e: Expr, max: nat, wider: nat)
    requires PathsWithin(e, max) && max <= wider
    ensures PathsWithin(e, wider)
  {
    match e
    case Not(inner) => WiderPaths(inner, max, wider);
    case And(l, r) => WiderPaths(l, max, wider); WiderPaths(r, max, wider);
    case Or(l, r) => WiderPaths(l, max, wider); WiderPaths(r, max, wider);
    case _ =>
  }

  lemma WholeIsClosed(toks: seq<Token>, limits: Limits, t: Tree, max: nat)
    requires IsTokenList(toks) && Derives(toks, limits, t) && limits.maxPathSegments <= max
    ensures Closed(toks, max, 0, t, 0)
  {
    WiderPaths(Erase(t), limits.maxPathSegments, max);
    assert toks[EndOf(0, t)].kind == End;
  }

  /** No token list has two derivations, under whatever limits they are taken. */
  lemma GrammarIsUnambiguous(toks: seq<Token>, limits: Limits, limits': Limits, t: Tree, u: Tree)
    requires IsTokenList(toks) && Derives(toks, limits, t) && Derives(toks, limits', u)
    ensures t == u
  {
    var max := Max(limits.maxPathSegments, limits'.maxPathSegments);
    WholeIsClosed(toks, limits, t, max);
    WholeIsClosed(toks, limits', u, max);
    Unique(toks, max, 0, t, u, 0);
  }
}
