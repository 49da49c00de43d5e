/** The recursive-descent parser over tokens: its reading function, and the parser object whose
    cursor and node counter advance step by step. */
module ExpressionParser {
  import opened Expression

  datatype TokenKind =
    | Identifier(name: string) | StringToken(text: string) | NumberToken(number: int)
    | TrueToken | FalseToken | NullToken | ExistsToken
    | AndToken | OrToken | Bang
    | EqualToken | NotEqualToken | LessToken | LessOrEqualToken | GreaterToken | GreaterOrEqualToken
    | LeftParen | RightParen | Dot | LeftBracket | RightBracket | End

  datatype Token = Token(kind: TokenKind, position: nat)

  datatype ParseError =
    | InvalidLimits
    | UnexpectedToken(position: nat, expected: string, found: TokenKind)
    | TrailingInput(position: nat)
    | NodeLimitExceeded(maximum: nat)
    | DepthExceeded(maximum: nat)
    | PathSegmentsExceeded(position: nat, maximum: nat)
    | InvalidArrayIndex(position: nat)

  /** A value with the cursor after it, or the error that stopped the parser. */
  datatype Step<+T> = Done(value: T, index: nat) | Failed(error: ParseError)

  /** As `Step`, with the node counter. */
  datatype Parsed = Ok(value: Expr, index: nat, nodes: nat) | Err(error: ParseError)

  datatype Result<+T> = Success(value: T) | Failure(error: ParseError)

  /** The token list ends with the end marker. */
  ghost predicate Terminated(toks: seq<Token>) {
    |toks| > 0 && toks[|toks| - 1].kind.End?
  }

  function Unexpected(t: Token, expected: string): ParseError {
    UnexpectedToken(t.position, expected, t.kind)
  }

  function OperatorOf(k: TokenKind): (o: seq<Operator>)
    ensures |o| <= 1
  {
    match k
    case EqualToken => [Equal]
    case NotEqualToken => [NotEqual]
    case LessToken => [Less]
    case LessOrEqualToken => [LessOrEqual]
    case GreaterToken => [Greater]
    case GreaterOrEqualToken => [GreaterOrEqual]
    case _ => []
  }

  // ---------------------------------------------------------------- reading functions

  function ReadPathTail(toks: seq<Token>, max: nat, start: nat, segments: seq<Segment>, i: nat): (r: Step<seq<Segment>>)
    requires Terminated(toks) && i < |toks|
    ensures r.Done? ==> i <= r.index < |toks|
    decreases |toks| - i, 0
  {
    match toks[i].kind
    case Dot =>
      if !toks[i + 1].kind.Identifier? then Failed(Unexpected(toks[i + 1], "a path key"))
      else ReadSegment(toks, max, start, segments + [Key(toks[i + 1].kind.name)], i + 2)
    case LeftBracket =>
      if !toks[i + 1].kind.NumberToken? then Failed(Unexpected(toks[i + 1], "an array index"))
      else if !(0 <= toks[i + 1].kind.number < INDEX_BOUND) then Failed(InvalidArrayIndex(toks[i + 1].position))
      else if !toks[i + 2].kind.RightBracket? then Failed(Unexpected(toks[i + 2], "`]`"))
      else ReadSegment(toks, max, start, segments + [Index(toks[i + 1].kind.number)], i + 3)
    case _ => Done(segments, i)
  }

  function ReadSegment(toks: seq<Token>, max: nat, start: nat, segments: seq<Segment>, i: nat): (r: Step<seq<Segment>>)
    requires Terminated(toks) && i < |toks|
    ensures r.Done? ==> i <= r.index < |toks|
    decreases |toks| - i, 1
  {
    if |segments| > max then Failed(PathSegmentsExceeded(start, max))
    else ReadPathTail(toks, max, start, segments, i)
  }

  function ReadPath(toks: seq<Token>, max: nat, i: nat): (r: Step<seq<Segment>>)
    requires Terminated(toks) && i < |toks|
    ensures r.Done? ==> i < r.index < |toks|
  {
    if !toks[i].kind.Identifier? then Failed(Unexpected(toks[i], "a path"))
    else ReadPathTail(toks, max, toks[i].position, [Key(toks[i].kind.name)], i + 1)
  }

  function ReadOperand(toks: seq<Token>, max: nat, i: nat): (r: Step<Operand>)
    requires Terminated(toks) && i < |toks|
    ensures r.Done? ==> i < r.index < |toks|
  {
    match toks[i].kind
    case TrueToken => Done(Constant(Boolean(true)), i + 1)
    case FalseToken => Done(Constant(Boolean(false)), i + 1)
    case NullToken => Done(Constant(Null), i + 1)
    case StringToken(value) => Done(Constant(Text(value)), i + 1)
    case NumberToken(value) => Done(Constant(Number(value)), i + 1)
    case Identifier(_) =>
      (match ReadPath(toks, max, i)
       case Done(p, j) => Done(Path(p), j)
       case Failed(e) => Failed(e))
    case _ => Failed(Unexpected(toks[i], "an operand"))
  }

  /** Counts one node. */
  function Node(limits: Limits, e: Expr, i: nat, nodes: nat): Parsed {
    if nodes + 1 > limits.maxNodes then Err(NodeLimitExceeded(limits.maxNodes)) else Ok(e, i, nodes + 1)
  }

  function ReadOr(toks: seq<Token>, limits: Limits, i: nat, n: nat, depth: nat): (r: Parsed)
    requires Terminated(toks) && i < |toks|
    ensures r.Ok? ==> i < r.index < |toks|
    decreases |toks| - i, 3
  {
    if depth > limits.maxDepth then Err(DepthExceeded(limits.maxDepth))
    else match ReadAnd(toks, limits, i, n, depth)
         case Err(e) => Err(e)
         case Ok(left, j, m) => ReadOrTail(toks, limits, left, j, m, depth)
  }

  function ReadOrTail(toks: seq<Token>, limits: Limits, left: Expr, i: nat, n: nat, depth: nat): (r: Parsed)
    requires Terminated(toks) && i < |toks|
    ensures r.Ok? ==> i <= r.index < |toks|
    decreases |toks| - i, 4
  {
    if !toks[i].kind.OrToken? then Ok(left, i, n)
    else match ReadAnd(toks, limits, i + 1, n, depth)
         case Err(e) => Err(e)
         case Ok(right, j, m) =>
           match Node(limits, Or(left, right), j, m)
           case Err(e) => Err(e)
           case Ok(both, _, m') => ReadOrTail(toks, limits, both, j, m', depth)
  }

  function ReadAnd(toks: seq<Token>, limits: Limits, i: nat, n: nat, depth: nat): (r: Parsed)
    requires Terminated(toks) && i < |toks|
    ensures r.Ok? ==> i < r.index < |toks|
    decreases |toks| - i, 2
  {
    match ReadUnary(toks, limits, i, n, depth)
    case Err(e) => Err(e)
    case Ok(left, j, m) => ReadAndTail(toks, limits, left, j, m, depth)
  }

  function ReadAndTail(toks: seq<Token>, limits: Limits, left: Expr, i: nat, n: nat, depth: nat): (r: Parsed)
    requires Terminated(toks) && i < |toks|
    ensures r.Ok? ==> i <= r.index < |toks|
    decreases |toks| - i, 3
  {
    if !toks[i].kind.AndToken? then Ok(left, i, n)
    else match ReadUnary(toks, limits, i + 1, n, depth)
         case Err(e) => Err(e)
         case Ok(right, j, m) =>
           match Node(limits, And(left, right), j, m)
           case Err(e) => Err(e)
           case Ok(both, _, m') => ReadAndTail(toks, limits, both, j, m', depth)
  }

  function ReadUnary(toks: seq<Token>, limits: Limits, i: nat, n: nat, depth: nat): (r: Parsed)
    requires Terminated(toks) && i < |toks|
    ensures r.Ok? ==> i < r.index < |toks|
    decreases |toks| - i, 1
  {
    if depth > limits.maxDepth then Err(DepthExceeded(limits.maxDepth))
    else if toks[i].kind.Bang? then
      match ReadUnary(toks, limits, i + 1, n, depth + 1)
      case Err(e) => Err(e)
      case Ok(inner, j, m) => Node(limits, Not(inner), j, m)
    else ReadPrimary(toks, limits, i, n, depth)
  }

  function ReadPrimary(toks: seq<Token>, limits: Limits, i: nat, n: nat, depth: nat): (r: Parsed)
    requires Terminated(toks) && i < |toks|
    ensures r.Ok? ==> i < r.index < |toks|
    decreases |toks| - i, 0
  {
    match toks[i].kind
    case LeftParen =>
      (match ReadOr(toks, limits, i + 1, n, depth + 1)
       case Err(e) => Err(e)
       case Ok(inner, j, m) =>
         if toks[j].kind.RightParen? then Ok(inner, j + 1, m) else Err(Unexpected(toks[j], "`)`")))
    case ExistsToken =>
      if !toks[i + 1].kind.LeftParen? then Err(Unexpected(toks[i + 1], "`(`"))
      else (match ReadPath(toks, limits.maxPathSegments, i + 2)
            case Failed(e) => Err(e)
            case Done(p, j) =>
              if toks[j].kind.RightParen? then Node(limits, Exists(p), j + 1, n)
              else Err(Unexpected(toks[j], "`)`")))
    case _ => ReadComparison(toks, limits, i, n)
  }

  function ReadComparison(toks: seq<Token>, limits: Limits, i: nat, n: nat): (r: Parsed)
    requires Terminated(toks) && i < |toks|
    ensures r.Ok? ==> i < r.index < |toks|
  {
    match ReadOperand(toks, limits.maxPathSegments, i)
    case Failed(e) => Err(e)
    case Done(left, j) =>
      if OperatorOf(toks[j].kind) == [] then Node(limits, Value(left), j, n)
      else match ReadOperand(toks, limits.maxPathSegments, j + 1)
           case Failed(e) => Err(e)
           case Done(right, k) => Node(limits, Compare(left, OperatorOf(toks[j].kind)[0], right), k, n)
  }

  /** Parsing a complete token list: limits, expression, end marker, depth. */
  function Parse(toks: seq<Token>, limits: Limits): Result<Expr>
    requires Terminated(toks)
  {
    if !ValidLimits(limits) then Failure(InvalidLimits)
    else match ReadOr(toks, limits, 0, 0, 1)
         case Err(e) => Failure(e)
         case Ok(e, j, _) =>
           if !toks[j].kind.End? then Failure(TrailingInput(toks[j].position))
           else if Depth(e) > limits.maxDepth then Failure(DepthExceeded(limits.maxDepth))
           else Success(e)
  }

  // ---------------------------------------------------------------- the parser object

  /** A parser positioned in its token list. Every read of the current token is inside the list:
      the cursor moves only over tokens other than the end marker. After a failure the parser is
      discarded, so only the error is specified then. */
  class Parser {
    const tokens: seq<Token>
    const limits: Limits
    var index: nat
    var nodes: nat

    constructor (tokens: seq<Token>, limits: Limits)
      requires Terminated(tokens)
      ensures this.tokens == tokens && this.limits == limits && index == 0 && nodes == 0 && Valid()
    {
      this.tokens, this.limits, index, nodes := tokens, limits, 0, 0;
    }

    ghost predicate Valid()
      reads this
    {
      Terminated(tokens) && index < |tokens|
    }

    /** The object ended where the reading function says. */
    ghost predicate EndsAs(r: Result<Expr>, spec: Parsed)
      reads this
    {
      match spec
      case Ok(e, j, m) => r == Success(e) && index == j && nodes == m && Valid()
      case Err(error) => r == Failure(error)
    }

    ghost predicate StopsAs<T>(r: Result<T>, spec: Step<T>)
      reads this
    {
      match spec
      case Done(v, j) => r == Success(v) && index == j && Valid()
      case Failed(error) => r == Failure(error)
    }

    method CountNode(e: Expr) returns (r: Result<Expr>)
      requires Valid()
      modifies this`nodes
      ensures EndsAs(r, Node(limits, e, index, old(nodes)))
    {
      nodes := nodes + 1;
      if nodes > limits.maxNodes {
        return Failure(NodeLimitExceeded(limits.maxNodes));
      }
      return Success(e);
    }

    method ParsePath() returns (r: Result<seq<Segment>>)
      requires Valid()
      modifies this`index
      ensures StopsAs(r, ReadPath(tokens, limits.maxPathSegments, old(index)))
    {
      var start := tokens[index].position;
      if !tokens[index].kind.Identifier? {
        return Failure(Unexpected(tokens[index], "a path"));
      }
      var segments := [Key(tokens[index].kind.name)];
      index := index + 1;
      var max := limits.maxPathSegments;
      while tokens[index].kind.Dot? || tokens[index].kind.LeftBracket?
        invariant Valid()
        invariant ReadPath(tokens, max, old(index)) == ReadPathTail(tokens, max, start, segments, index)
        decreases |tokens| - index
      {
        if tokens[index].kind.Dot? {
          index := index + 1;
          if !tokens[index].kind.Identifier? {
            return Failure(Unexpected(tokens[index], "a path key"));
          }
          segments := segments + [Key(tokens[index].kind.name)];
          index := index + 1;
        } else {
          index := index + 1;
          var token := tokens[index];
          if !token.kind.NumberToken? {
            return Failure(Unexpected(token, "an array index"));
          }
          if !(0 <= token.kind.number < INDEX_BOUND) {
            return Failure(InvalidArrayIndex(token.position));
          }
          index := index + 1;
          if !tokens[index].kind.RightBracket? {
            return Failure(Unexpected(tokens[index], "`]`"));
          }
          index := index + 1;
          segments := segments + [Index(token.kind.number)];
        }
        if |segments| > max {
          return Failure(PathSegmentsExceeded(start, max));
        }
      }
      return Success(segments);
    }

    method ParseOperand() returns (r: Result<Operand>)
      requires Valid()
      modifies this`index
      ensures StopsAs(r, ReadOperand(tokens, limits.maxPathSegments, old(index)))
    {
      match tokens[index].kind
      case TrueToken => index := index + 1; return Success(Constant(Boolean(true)));
      case FalseToken => index := index + 1; return Success(Constant(Boolean(false)));
      case NullToken => index := index + 1; return Success(Constant(Null));
      case StringToken(value) => index := index + 1; return Success(Constant(Text(value)));
      case NumberToken(value) => index := index + 1; return Success(Constant(Number(value)));
      case Identifier(_) =>
        var p := ParsePath();
        match p {
          case Success(segments) => return Success(Path(segments));
          case Failure(e) => return Failure(e);
        }
      case _ => return Failure(Unexpected(tokens[index], "an operand"));
    }

    method ParseComparison() returns (r: Result<Expr>)
      requires Valid()
      modifies this
      ensures EndsAs(r, ReadComparison(tokens, limits, old(index), old(nodes)))
    {
      var left := ParseOperand();
      if left.Failure? {
        return Failure(left.error);
      }
      var operator := OperatorOf(tokens[index].kind);
      if operator == [] {
        r := CountNode(Value(left.value));
        return;
      }
      index := index + 1;
      var right := ParseOperand();
      if right.Failure? {
        return Failure(right.error);
      }
      r := CountNode(Compare(left.value, operator[0], right.value));
    }

    method ParseExists() returns (r: Result<Expr>)
      requires Valid() && tokens[index].kind.ExistsToken?
      modifies this
      ensures forall depth :: EndsAs(r, ReadPrimary(tokens, limits, old(index), old(nodes), depth))
    {
      index := index + 1;
      if !tokens[index].kind.LeftParen? {
        return Failure(Unexpected(tokens[index], "`(`"));
      }
      index := index + 1;
      var path := ParsePath();
      if path.Failure? {
        return Failure(path.error);
      }
      if !tokens[index].kind.RightParen? {
        return Failure(Unexpected(tokens[index], "`)`"));
      }
      index := index + 1;
      r := CountNode(Exists(path.value));
    }

    method ParsePrimary(depth: nat) returns (r: Result<Expr>)
      requires Valid()
      modifies this
      ensures EndsAs(r, ReadPrimary(tokens, limits, old(index), old(nodes), depth))
      decreases |tokens| - index, 0
    {
      if tokens[index].kind.LeftParen? {
        index := index + 1;
        r := ParseOr(depth + 1);
        if r.Failure? {
          return;
        }
        if !tokens[index].kind.RightParen? {
          return Failure(Unexpected(tokens[index], "`)`"));
        }
        index := index + 1;
        return;
      }
      if tokens[index].kind.ExistsToken? {
        r := ParseExists();
        return;
      }
      r := ParseComparison();
    }

    method ParseUnary(depth: nat) returns (r: Result<Expr>)
      requires Valid()
      modifies this
      ensures EndsAs(r, ReadUnary(tokens, limits, old(index), old(nodes), depth))
      decreases |tokens| - index, 1
    {
      if depth > limits.maxDepth {
        return Failure(DepthExceeded(limits.maxDepth));
      }
      if tokens[index].kind.Bang? {
        index := index + 1;
        var inner := ParseUnary(depth + 1);
        if inner.Failure? {
          return inner;
        }
        r := CountNode(Not(inner.value));
        return;
      }
      r := ParsePrimary(depth);
    }

    method ParseAnd(depth: nat) returns (r: Result<Expr>)
      requires Valid()
      modifies this
      ensures EndsAs(r, ReadAnd(tokens, limits, old(index), old(nodes), depth))
      decreases |tokens| - index, 2
    {
      r := ParseUnary(depth);
      if r.Failure? {
        return;
      }
      while tokens[index].kind.AndToken?
        invariant Valid() && r.Success? && old(index) < index
        invariant ReadAnd(tokens, limits, old(index), old(nodes), depth)
               == ReadAndTail(tokens, limits, r.value, index, nodes, depth)
        decreases |tokens| - index
      {
        index := index + 1;
        var right := ParseUnary(depth);
        if right.Failure? {
          return right;
        }
        r := CountNode(And(r.value, right.value));
        if r.Failure? {
          return;
        }
      }
    }

    method ParseOr(depth: nat) returns (r: Result<Expr>)
      requires Valid()
      modifies this
      ensures EndsAs(r, ReadOr(tokens, limits, old(index), old(nodes), depth))
      decreases |tokens| - index, 3
    {
      if depth > limits.maxDepth {
        return Failure(DepthExceeded(limits.maxDepth));
      }
      r := ParseAnd(depth);
      if r.Failure? {
        return;
      }
      while tokens[index].kind.OrToken?
        invariant Valid() && r.Success? && old(index) < index
        invariant ReadOr(tokens, limits, old(index), old(nodes), depth)
               == ReadOrTail(tokens, limits, r.value, index, nodes, depth)
        decreases |tokens| - index
      {
        index := index + 1;
        var right := ParseAnd(depth);
        if right.Failure? {
          return right;
        }
        r := CountNode(Or(r.value, right.value));
        if r.Failure? {
          return;
        }
      }
    }
  }

  /** Parsing through the parser object agrees with the reading function. */
  method ParseExpression(tokens: seq<Token>, limits: Limits) returns (r: Result<Expr>)
    requires Terminated(tokens)
    ensures r == Parse(tokens, limits)
  {
    if !ValidLimits(limits) {
      return Failure(InvalidLimits);
    }
    var parser := new Parser(tokens, limits);
    r := parser.ParseOr(1);
    if r.Failure? {
      return;
    }
    if !tokens[parser.index].kind.End? {
      return Failure(TrailingInput(tokens[parser.index].position));
    }
    if Depth(r.value) > limits.maxDepth {
      return Failure(DepthExceeded(limits.maxDepth));
    }
  }
}
