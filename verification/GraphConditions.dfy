/** Conditions of nodes and edges: they must parse, and in a graph that opts into variables they may
    read only the runtime roots and the declared reads of the node that owns them. */
module GraphConditions {
  import opened Ordered
  import opened GraphModel
  import Expression
  import Parser = ExpressionParser
  import Grammar = ExpressionGrammar
  import Evaluation = ExpressionEvaluation

  type Expr = Expression.Expr

  datatype AnyLanguage = AnyLanguage(lex: string -> Option<seq<Parser.Token>>, limits: Expression.Limits)

  /** The lexer and the limits conditions are parsed under: whatever the lexer accepts is a list of
      tokens closed by one end marker. */
  type Language = l: AnyLanguage | forall text :: l.lex(text).Some? ==> Grammar.IsTokenList(l.lex(text).value)
    witness AnyLanguage(text => None, Expression.Limits(1, 1, 1))

  datatype Reading = Absent | Condition(expr: Expr) | Malformed

  /** What a condition's text denotes. */
  function Read(l: Language, c: Option<Id>): Reading
  {
    match c
    case None => Absent
    case Some(text) =>
      match l.lex(text.text)
      case None => Malformed
      case Some(tokens) =>
        match Parser.Parse(tokens, l.limits)
        case Success(e) => Condition(e)
        case Failure(_) => Malformed
  }

  /** An accepted condition is within the limits of the language. */
  lemma ReadIsWithinLimits(l: Language, c: Option<Id>)
    requires Read(l, c).Condition?
    ensures Expression.WithinLimits(Read(l, c).expr, l.limits)
  {
    var tokens := l.lex(c.value.text).value;
    var t := Grammar.AcceptedIsDerived(tokens, l.limits);
  }

  // ---------------------------------------------------------------- parsing

  ghost predicate AllParse(l: Language, ns: seq<Node>, es: seq<EdgeDefinition>)
  {
    && (forall n :: n in ns ==> !Read(l, n.condition).Malformed?)
    && forall e :: e in es ==> !Read(l, e.condition).Malformed?
  }

  method ParseCondition(l: Language, owner: Id, c: Option<Id>) returns (r: Result<Option<Expr>>)
    ensures r.Ok? <==> !Read(l, c).Malformed?
    ensures r.Ok? ==> r.value == (match Read(l, c) case Condition(e) => Some(e) case _ => None)
    ensures r.Err? ==> r.error.InvalidCondition?
  {
    if c.None? {
      return Ok(None);
    }
    var tokens := l.lex(c.value.text);
    if tokens.None? {
      return Err(InvalidCondition(owner));
    }
    var parsed := Parser.ParseExpression(tokens.value, l.limits);
    match parsed
    case Success(e) => return Ok(Some(e));
    case Failure(_) => return Err(InvalidCondition(owner));
  }

  method ValidateEdgeConditions(l: Language, es: seq<EdgeDefinition>) returns (r: Result<()>)
    ensures r.Ok? <==> forall e :: e in es ==> !Read(l, e.condition).Malformed?
    ensures r.Err? ==> r.error.InvalidCondition?
  {
    for i := 0 to |es|
      invariant forall k :: 0 <= k < i ==> !Read(l, es[k].condition).Malformed?
    {
      var one := ParseCondition(l, es[i].from, es[i].condition);
      if one.Err? {
        assert es[i] in es;
        return Err(one.error);
      }
    }
    return Ok(());
  }

  // ---------------------------------------------------------------- access

  function Texts(ids: set<Id>): set<string> {
    set x | x in ids :: x.text
  }

  /** A graph opts into variables by declaring one, or by a node that reads or writes one. */
  predicate Strict(ns: seq<Node>, variables: set<Id>) {
    variables != {} || exists n :: n in ns && (n.readVariables != {} || n.writeVariables != {})
  }

  /** The condition parses and, in a graph that opted in, reads nothing it may not. */
  predicate Confined(l: Language, c: Option<Id>, declared: set<Id>, variables: set<Id>, strict: bool)
  {
    match Read(l, c)
    case Absent => true
    case Malformed => false
    case Condition(e) => strict ==> Evaluation.Roots(e) <= Evaluation.Allowance(Texts(declared), Texts(variables))
  }

  method ValidateAccess(l: Language, owner: Id, c: Option<Id>, declared: set<Id>, variables: set<Id>, strict: bool)
    returns (r: Result<()>)
    ensures r.Ok? <==> Confined(l, c, declared, variables, strict)
    ensures r.Err? ==> r.error.InvalidCondition? || r.error.UndeclaredConditionVariable?
                       || r.error.ConditionVariableNotDeclaredRead?
  {
    var parsed := ParseCondition(l, owner, c);
    if parsed.Err? {
      return Err(parsed.error);
    }
    if parsed.value.None? || !strict {
      return Ok(());
    }
    var access := Evaluation.ValidateAccess(parsed.value.value, Texts(declared), Texts(variables));
    match access
    case Allowed => return Ok(());
    case UndeclaredConditionVariable(v) => return Err(UndeclaredConditionVariable(owner, Id(v)));
    case ConditionVariableNotDeclaredRead(v) => return Err(ConditionVariableNotDeclaredRead(owner, Id(v)));
  }

  /** A confined condition of a graph that opted in gives the same value, or the same error, in any
      two environments that agree on the runtime roots and the owner's declared reads. */
  lemma ConfinedReadsOnlyDeclared(l: Language, c: Option<Id>, declared: set<Id>, variables: set<Id>,
                                  a: Evaluation.Json, b: Evaluation.Json)
    requires Confined(l, c, declared, variables, true) && Read(l, c).Condition?
    requires Evaluation.AgreeOn(a, b, Evaluation.RUNTIME_ROOTS + Texts(declared))
    ensures Evaluation.Evaluate(Read(l, c).expr, a) == Evaluation.Evaluate(Read(l, c).expr, b)
  {
    ReadIsWithinLimits(l, c);
    Evaluation.AcceptedConditionIsConfined(Read(l, c).expr, l.limits.maxPathSegments, Texts(declared),
      Texts(variables), a, b);
  }
}
