/**
 WHERE expressions as the SQL layer has them, and the recursive-descent parser for them: OR
 below AND below NOT below primaries.
 */
module SqlParser {
  import opened Wrappers
  import EngineData
  import opened SqlLexer

  // ---------------------------------------------------------------- expressions

  type CmpOp = EngineData.CmpOp

  /** A float without its sign; a finite one is known by the shortest decimal that reads as it. */
  datatype Magnitude = Finite(d: Numeral) | Infinite | NotANumber

  datatype Float = Float(negative: bool, size: Magnitude)

  /** VECTOR components have 32 bits, REAL values 64. */
  datatype Literal =
    | NullLiteral
    | IntLiteral(n: int)
    | RealLiteral(x: Float)
    | TextLiteral(s: string)
    | VectorLiteral(v: seq<Float>)

  datatype Expr =
    | Compare(column: string, op: CmpOp, value: Literal)
    | IsNull(column: string, negated: bool)
    | Not(inner: Expr)
    | And(left: Expr, right: Expr)
    | Or(left: Expr, right: Expr)

  /** Rounding to the nearest 64-bit and 32-bit float. */
  datatype Floats = Floats(r64: Numeral -> Magnitude, r32: Numeral -> Magnitude)

  /** A 64-bit float as a 32-bit one. */
  function Narrow(fp: Floats, x: Magnitude): Magnitude {
    if x.Finite? then fp.r32(x.d) else x
  }

  // ---------------------------------------------------------------- the grammar

  datatype Parsed<T> = Parsed(value: T, rest: seq<Token>)

  predicate StartsWith(tokens: seq<Token>, t: Token) {
    tokens != [] && tokens[0] == t
  }

  predicate StartsWithWord(tokens: seq<Token>, word: string) {
    StartsWith(tokens, Ident(word))
  }

  function ParseExpr(fp: Floats, tokens: seq<Token>): (r: Option<Parsed<Expr>>)
    ensures r.Some? ==> |r.value.rest| < |tokens|
    decreases |tokens|, 4
  {
    match ParseAnd(fp, tokens)
    case None => None
    case Some(p) => ParseOrTail(fp, p.value, p.rest)
  }

  /** The loop over OR. */
  function ParseOrTail(fp: Floats, left: Expr, tokens: seq<Token>): (r: Option<Parsed<Expr>>)
    ensures r.Some? ==> |r.value.rest| <= |tokens|
    decreases |tokens|, 5
  {
    if !StartsWithWord(tokens, "or") then Some(Parsed(left, tokens))
    else
      match ParseAnd(fp, tokens[1..])
      case None => None
      case Some(p) => ParseOrTail(fp, Or(left, p.value), p.rest)
  }

  function ParseAnd(fp: Floats, tokens: seq<Token>): (r: Option<Parsed<Expr>>)
    ensures r.Some? ==> |r.value.rest| < |tokens|
    decreases |tokens|, 3
  {
    match ParseNot(fp, tokens)
    case None => None
    case Some(p) => ParseAndTail(fp, p.value, p.rest)
  }

  /** The loop over AND. */
  function ParseAndTail(fp: Floats, left: Expr, tokens: seq<Token>): (r: Option<Parsed<Expr>>)
    ensures r.Some? ==> |r.value.rest| <= |tokens|
    decreases |tokens|, 5
  {
    if !StartsWithWord(tokens, "and") then Some(Parsed(left, tokens))
    else
      match ParseNot(fp, tokens[1..])
      case None => None
      case Some(p) => ParseAndTail(fp, And(left, p.value), p.rest)
  }

  function ParseNot(fp: Floats, tokens: seq<Token>): (r: Option<Parsed<Expr>>)
    ensures r.Some? ==> |r.value.rest| < |tokens|
    decreases |tokens|, 2
  {
    if StartsWithWord(tokens, "not") then
      match ParseNot(fp, tokens[1..])
      case None => None
      case Some(p) => Some(Parsed(Not(p.value), p.rest))
    else ParsePrimary(fp, tokens)
  }

  function ParsePrimary(fp: Floats, tokens: seq<Token>): (r: Option<Parsed<Expr>>)
    ensures r.Some? ==> |r.value.rest| < |tokens|
    decreases |tokens|, 1
  {
    if StartsWith(tokens, LParen) then
      match ParseExpr(fp, tokens[1..])
      case None => None
      case Some(p) => if StartsWith(p.rest, RParen) then Some(Parsed(p.value, p.rest[1..])) else None
    else if tokens == [] || !tokens[0].Ident? then None
    else if StartsWithWord(tokens[1..], "is") then ParseIsNull(tokens[0].name, tokens[2..])
    else ParseComparison(fp, tokens[0].name, tokens[1..])
  }

  /** After `column IS`. */
  function ParseIsNull(column: string, tokens: seq<Token>): (r: Option<Parsed<Expr>>)
    ensures r.Some? ==> |r.value.rest| < |tokens|
  {
    var negated := StartsWithWord(tokens, "not");
    var rest := if negated then tokens[1..] else tokens;
    if StartsWithWord(rest, "null") then Some(Parsed(IsNull(column, negated), rest[1..])) else None
  }

  function OpOf(t: Token): Option<CmpOp> {
    match t
    case EqTok => Some(EngineData.Eq)
    case NeTok => Some(EngineData.Ne)
    case LtTok => Some(EngineData.Lt)
    case GtTok => Some(EngineData.Gt)
    case LeTok => Some(EngineData.Le)
    case GeTok => Some(EngineData.Ge)
    case _ => None
  }

  function ParseComparison(fp: Floats, column: string, tokens: seq<Token>): (r: Option<Parsed<Expr>>)
    ensures r.Some? ==> |r.value.rest| < |tokens|
  {
    if tokens == [] || OpOf(tokens[0]).None? then None
    else
      match ParseLiteral(fp, tokens[1..])
      case None => None
      case Some(p) => Some(Parsed(Compare(column, OpOf(tokens[0]).value, p.value), p.rest))
  }

  function Negated(n: nat): Literal {
    var m: int := n;
    IntLiteral(-m)
  }

  function ParseLiteral(fp: Floats, tokens: seq<Token>): (r: Option<Parsed<Literal>>)
    ensures r.Some? ==> |r.value.rest| < |tokens|
  {
    if tokens == [] then None
    else
      match tokens[0]
      case IntLit(n) => Some(Parsed(IntLiteral(n), tokens[1..]))
      case Str(s) => Some(Parsed(TextLiteral(s), tokens[1..]))
      case LBracket =>
        (match ParseComponent(fp, tokens[1..])
         case None => None
         case Some(p) => ParseComponents(fp, [p.value], p.rest))
      case FloatLit(d) => Some(Parsed(RealLiteral(Float(false, fp.r64(d))), tokens[1..]))
      case Minus =>
        if |tokens| > 1 && tokens[1].IntLit? then Some(Parsed(Negated(tokens[1].n), tokens[2..]))
        else if |tokens| > 1 && tokens[1].FloatLit? then Some(Parsed(RealLiteral(Float(true, fp.r64(tokens[1].d))), tokens[2..]))
        else None
      case Ident(w) => if w == "null" then Some(Parsed(NullLiteral, tokens[1..])) else None
      case _ => None
  }

  /** One number inside a vector literal. */
  function ParseComponent(fp: Floats, tokens: seq<Token>): (r: Option<Parsed<Float>>)
    ensures r.Some? ==> |r.value.rest| < |tokens|
  {
    var negative := StartsWith(tokens, Minus);
    var rest := if negative then tokens[1..] else tokens;
    if rest == [] then None
    else
      match rest[0]
      case IntLit(n) => Some(Parsed(Float(negative, fp.r32(Numeral(n, ""))), rest[1..]))
      case FloatLit(d) => Some(Parsed(Float(negative, Narrow(fp, fp.r64(d))), rest[1..]))
      case _ => None
  }

  /** The loop over commas, up to the closing bracket. */
  function ParseComponents(fp: Floats, done: seq<Float>, tokens: seq<Token>): (r: Option<Parsed<Literal>>)
    ensures r.Some? ==> |r.value.rest| < |tokens|
    decreases |tokens|
  {
    if StartsWith(tokens, Comma) then
      match ParseComponent(fp, tokens[1..])
      case None => None
      case Some(p) => ParseComponents(fp, done + [p.value], p.rest)
    else if StartsWith(tokens, RBracket) then Some(Parsed(VectorLiteral(done), tokens[1..]))
    else None
  }

  // ---------------------------------------------------------------- the parser object

  class Parser {
    const fp: Floats
    const tokens: seq<Token>
    var pos: nat

    constructor (floats: Floats, ts: seq<Token>)
      ensures fp == floats && tokens == ts && pos == 0
    {
      fp := floats;
      tokens := ts;
      pos := 0;
    }

    ghost predicate Valid()
      reads this
    {
      pos <= |tokens|
    }

    function Rest(): seq<Token>
      requires Valid()
      reads this
    {
      tokens[pos..]
    }

    /** The object has done what p says: the value, and the tokens left. */
    ghost predicate Did<T>(p: Option<Parsed<T>>, r: Option<T>)
      requires Valid()
      reads this
    {
      if p.None? then r == None else r == Some(p.value.value) && Rest() == p.value.rest
    }

    method Eat(t: Token) returns (ok: bool)
      requires Valid()
      modifies this
      ensures Valid() && ok == StartsWith(old(Rest()), t)
      ensures Rest() == if ok then old(Rest())[1..] else old(Rest())
    {
      ok := pos < |tokens| && tokens[pos] == t;
      if ok {
        pos := pos + 1;
      }
    }

    method Expr() returns (r: Option<Expr>)
      requires Valid()
      modifies this
      ensures Valid() && Did(ParseExpr(fp, old(Rest())), r)
      ensures |Rest()| <= old(|Rest()|)
      decreases |Rest()|, 4
    {
      hide ParseAnd, ParseOrTail;
      ghost var all := ParseExpr(fp, Rest());
      var left := AndExpr();
      if left.None? {
        return None;
      }
      var e := left.value;
      while true
        invariant Valid() && |Rest()| < old(|Rest()|)
        invariant ParseOrTail(fp, e, Rest()) == all
        decreases |Rest()|
      {
        ghost var here := Rest();
        var more := Eat(Ident("or"));
        if !more {
          OrTailStops(fp, e, here);
          return Some(e);
        }
        OrTailNext(fp, e, here);
        var right := AndExpr();
        if right.None? {
          return None;
        }
        e := Or(e, right.value);
      }
    }

    method AndExpr() returns (r: Option<Expr>)
      requires Valid()
      modifies this
      ensures Valid() && Did(ParseAnd(fp, old(Rest())), r)
      ensures |Rest()| <= old(|Rest()|) && (r.Some? ==> |Rest()| < old(|Rest()|))
      decreases |Rest()|, 3
    {
      hide ParseNot, ParseAndTail;
      ghost var all := ParseAnd(fp, Rest());
      var left := NotExpr();
      if left.None? {
        return None;
      }
      var e := left.value;
      while true
        invariant Valid() && |Rest()| < old(|Rest()|)
        invariant ParseAndTail(fp, e, Rest()) == all
        decreases |Rest()|
      {
        ghost var here := Rest();
        var more := Eat(Ident("and"));
        if !more {
          AndTailStops(fp, e, here);
          return Some(e);
        }
        AndTailNext(fp, e, here);
        var right := NotExpr();
        if right.None? {
          return None;
        }
        e := And(e, right.value);
      }
    }

    method NotExpr() returns (r: Option<Expr>)
      requires Valid()
      modifies this
      ensures Valid() && Did(ParseNot(fp, old(Rest())), r)
      ensures |Rest()| <= old(|Rest()|) && (r.Some? ==> |Rest()| < old(|Rest()|))
      decreases |Rest()|, 2
    {
      hide ParsePrimary;
      var negated := Eat(Ident("not"));
      if negated {
        var inner := NotExpr();
        r := if inner.None? then None else Some(Not(inner.value));
      } else {
        r := PrimaryExpr();
      }
    }

    method PrimaryExpr() returns (r: Option<Expr>)
      requires Valid()
      modifies this
      ensures Valid() && Did(ParsePrimary(fp, old(Rest())), r)
      ensures |Rest()| <= old(|Rest()|) && (r.Some? ==> |Rest()| < old(|Rest()|))
      decreases |Rest()|, 1
    {
      hide ParseExpr, ParseIsNull, ParseComparison;
      ghost var all := Rest();
      var paren := Eat(LParen);
      if paren {
        var inner := Expr();
        if inner.None? {
          return None;
        }
        var closed := Eat(RParen);
        return if closed then inner else None;
      }
      if pos == |tokens| || !tokens[pos].Ident? {
        return None;
      }
      var column := tokens[pos].name;
      pos := pos + 1;
      assert Rest() == all[1..];
      var tested := Eat(Ident("is"));
      if tested {
        assert Rest() == all[2..];
        r := IsNullTail(column);
      } else {
        r := ComparisonTail(column);
      }
    }

    method IsNullTail(column: string) returns (r: Option<Expr>)
      requires Valid()
      modifies this
      ensures Valid() && Did(ParseIsNull(column, old(Rest())), r)
      ensures |Rest()| <= old(|Rest()|)
    {
      var negated := Eat(Ident("not"));
      var found := Eat(Ident("null"));
      r := if found then Some(IsNull(column, negated)) else None;
    }

    method ComparisonTail(column: string) returns (r: Option<Expr>)
      requires Valid()
      modifies this
      ensures Valid() && Did(ParseComparison(fp, column, old(Rest())), r)
      ensures |Rest()| <= old(|Rest()|)
    {
      hide ParseLiteral;
      if pos == |tokens| || OpOf(tokens[pos]).None? {
        return None;
      }
      var op := OpOf(tokens[pos]).value;
      ghost var all := Rest();
      pos := pos + 1;
      assert Rest() == all[1..];
      var value := Literal();
      r := if value.None? then None else Some(Compare(column, op, value.value));
    }

    method Literal() returns (r: Option<Literal>)
      requires Valid()
      modifies this
      ensures Valid() && Did(ParseLiteral(fp, old(Rest())), r)
      ensures |Rest()| <= old(|Rest()|)
    {
      hide ParseComponent, ParseComponents;
      if pos == |tokens| {
        return None;
      }
      var t := tokens[pos];
      ghost var all := Rest();
      pos := pos + 1;
      assert Rest() == all[1..];
      match t
      case IntLit(n) => r := Some(IntLiteral(n));
      case Str(s) => r := Some(TextLiteral(s));
      case LBracket => r := VectorTail();
      case FloatLit(d) => r := Some(RealLiteral(Float(false, fp.r64(d))));
      case Minus =>
        if pos < |tokens| && tokens[pos].IntLit? {
          r := Some(Negated(tokens[pos].n));
          pos := pos + 1;
        } else if pos < |tokens| && tokens[pos].FloatLit? {
          r := Some(RealLiteral(Float(true, fp.r64(tokens[pos].d))));
          pos := pos + 1;
        } else {
          r := None;
        }
      case Ident(w) => r := if w == "null" then Some(NullLiteral) else None;
      case _ => r := None;
    }

    /** What follows an opening bracket. */
    method VectorTail() returns (r: Option<Literal>)
      requires Valid()
      modifies this
      ensures Valid() && |Rest()| <= old(|Rest()|)
      ensures var p := ParseComponent(fp, old(Rest()));
        if p.None? then r == None else Did(ParseComponents(fp, [p.value.value], p.value.rest), r)
    {
      hide ParseComponent;
      var first := Component();
      if first.None? {
        return None;
      }
      ghost var all := ParseComponents(fp, [first.value], Rest());
      var components := [first.value];
      while true
        invariant Valid() && |Rest()| < old(|Rest()|)
        invariant ParseComponents(fp, components, Rest()) == all
        decreases |Rest()|
      {
        var more := Eat(Comma);
        if !more {
          break;
        }
        var next := Component();
        if next.None? {
          return None;
        }
        components := components + [next.value];
      }
      var closed := Eat(RBracket);
      r := if closed then Some(VectorLiteral(components)) else None;
    }

    method Component() returns (r: Option<Float>)
      requires Valid()
      modifies this
      ensures Valid() && Did(ParseComponent(fp, old(Rest())), r)
      ensures |Rest()| <= old(|Rest()|) && (r.Some? ==> |Rest()| < old(|Rest()|))
    {
      var negative := Eat(Minus);
      if pos == |tokens| {
        return None;
      }
      match tokens[pos]
      case IntLit(n) =>
        pos := pos + 1;
        r := Some(Float(negative, fp.r32(Numeral(n, ""))));
      case FloatLit(d) =>
        pos := pos + 1;
        r := Some(Float(negative, Narrow(fp, fp.r64(d))));
      case _ => r := None;
    }
  }

  lemma OrTailNext(fp: Floats, e: Expr, tokens: seq<Token>)
    requires StartsWithWord(tokens, "or")
    ensures ParseOrTail(fp, e, tokens) == match ParseAnd(fp, tokens[1..]) case None => None case Some(p) => ParseOrTail(fp, Or(e, p.value), p.rest)
  {
    hide ParseAnd;
  }

  lemma OrTailStops(fp: Floats, e: Expr, tokens: seq<Token>)
    requires !StartsWithWord(tokens, "or")
    ensures ParseOrTail(fp, e, tokens) == Some(Parsed(e, tokens))
  {
    hide ParseAnd;
  }

  lemma AndTailNext(fp: Floats, e: Expr, tokens: seq<Token>)
    requires StartsWithWord(tokens, "and")
    ensures ParseAndTail(fp, e, tokens) == match ParseNot(fp, tokens[1..]) case None => None case Some(p) => ParseAndTail(fp, And(e, p.value), p.rest)
  {
    hide ParseNot;
  }

  lemma AndTailStops(fp: Floats, e: Expr, tokens: seq<Token>)
    requires !StartsWithWord(tokens, "and")
    ensures ParseAndTail(fp, e, tokens) == Some(Parsed(e, tokens))
  {
    hide ParseNot;
  }
}
