/** Printing WHERE expressions, and the proof that the lexer and the parser undo it. */
module SqlRoundTrip {
  import opened Wrappers
  import opened SqlLexer
  import EngineData
  import opened SqlParser

  // ---------------------------------------------------------------- printing

  function DigitChar(d: nat): (c: char)
    requires d < 10
    ensures IsDigit(c) && DigitValue(c) == d
  {
    '0' + (d as char)
  }

  function Decimal(n: nat): (s: string)
    ensures s != "" && forall i :: 0 <= i < |s| ==> IsDigit(s[i])
  {
    if n < 10 then [DigitChar(n)] else Decimal(n / 10) + [DigitChar(n % 10)]
  }

  /** The text with every quote doubled. */
  function Doubled(s: string): string {
    if s == "" then "" else (if s[0] == '\'' then "''" else [s[0]]) + Doubled(s[1..])
  }

  function PrintOp(op: CmpOp): string {
    match op
    case Eq => "="
    case Ne => "!="
    case Lt => "<"
    case Gt => ">"
    case Le => "<="
    case Ge => ">="
  }

  /** Floats print their shortest decimal, without an exponent, and whole ones without a point. */
  function PrintSize(m: Magnitude): string {
    match m
    case Finite(d) => Decimal(d.whole) + (if d.fraction == "" then "" else "." + d.fraction)
    case Infinite => "inf"
    case NotANumber => "NaN"
  }

  function PrintFloat(x: Float): string {
    (if x.negative && !x.size.NotANumber? then "-" else "") + PrintSize(x.size)
  }

  function PrintComponents(v: seq<Float>): string {
    if v == [] then "" else if |v| == 1 then PrintFloat(v[0]) else PrintFloat(v[0]) + (", " + PrintComponents(v[1..]))
  }

  function WholeNumber(n: int): Float {
    Float(n < 0, Finite(Numeral(if n < 0 then -n else n, "")))
  }

  function PrintLiteral(v: Literal): string {
    match v
    case NullLiteral => "NULL"
    case IntLiteral(n) => PrintFloat(WholeNumber(n))
    case RealLiteral(x) => PrintFloat(x)
    case TextLiteral(s) => "'" + (Doubled(s) + "'")
    case VectorLiteral(v) => "[" + (PrintComponents(v) + "]")
  }

  function Print(e: Expr): string {
    match e
    case Compare(column, op, value) => column + (" " + (PrintOp(op) + (" " + PrintLiteral(value))))
    case IsNull(column, negated) => column + (" IS " + ((if negated then "NOT " else "") + "NULL"))
    case Not(inner) => "NOT (" + (Print(inner) + ")")
    case And(a, b) => "(" + (Print(a) + (" AND " + (Print(b) + ")")))
    case Or(a, b) => "(" + (Print(a) + (" OR " + (Print(b) + ")")))
  }

  // ---------------------------------------------------------------- what round-trips

  predicate LowerWord(w: string) {
    w != "" && !IsDigit(w[0]) && forall i :: 0 <= i < |w| ==> IsLower(w[i]) || IsDigit(w[i]) || w[i] == '_'
  }

  predicate GoodName(w: string) {
    LowerWord(w) && w != "not"
  }

  predicate Canonical(d: Numeral) {
    (forall i :: 0 <= i < |d.fraction| ==> IsDigit(d.fraction[i])) && (d.fraction != "" ==> d.fraction[|d.fraction| - 1] != '0')
  }

  /** A float is known by a canonical decimal that rounds to it. */
  ghost predicate IsFloat(round: Numeral -> Magnitude, m: Magnitude) {
    m.Finite? ==> Canonical(m.d) && round(m.d) == m
  }

  ghost predicate PlainLiteral(fp: Floats, v: Literal) {
    match v
    case RealLiteral(x) => IsFloat(fp.r64, x.size)
    case VectorLiteral(v) => forall i :: 0 <= i < |v| ==> IsFloat(fp.r32, v[i].size)
    case _ => true
  }

  /** Every REAL is a 64-bit float, every vector component a 32-bit one. */
  ghost predicate Plain(fp: Floats, e: Expr) {
    match e
    case Compare(_, _, value) => PlainLiteral(fp, value)
    case IsNull(_, _) => true
    case Not(inner) => Plain(fp, inner)
    case And(a, b) => Plain(fp, a) && Plain(fp, b)
    case Or(a, b) => Plain(fp, a) && Plain(fp, b)
  }

  /** Rounding gives floats, and leaves the shortest decimal of a float alone. */
  ghost predicate Lawful(fp: Floats) {
    forall d :: Canonical(d) ==> IsFloat(fp.r64, fp.r64(d)) && IsFloat(fp.r32, fp.r32(d))
  }

  /** The least 64-bit integer. */
  const LEAST: int := -0x8000_0000_0000_0000

  /** Lower-case columns other than `not`, and integers above the least 64-bit one. */
  predicate Named(e: Expr) {
    match e
    case Compare(column, _, value) => GoodName(column) && (value.IntLiteral? ==> LEAST < value.n <= I64_MAX)
    case IsNull(column, _) => GoodName(column)
    case Not(inner) => Named(inner)
    case And(a, b) => Named(a) && Named(b)
    case Or(a, b) => Named(a) && Named(b)
  }

  /**
   A component that is read back: finite, and if it is whole it fits 64 bits, and if not its
   decimal gives it also by way of a 64-bit float.
   */
  predicate ComponentSurvives(fp: Floats, x: Float) {
    x.size.Finite? && if x.size.d.fraction == "" then x.size.d.whole <= I64_MAX else Narrow(fp, fp.r64(x.size.d)) == x.size
  }

  predicate LiteralSurvives(fp: Floats, v: Literal) {
    match v
    case RealLiteral(x) => x.size.Finite? && x.size.d.fraction != ""
    case VectorLiteral(v) => v != [] && forall i :: 0 <= i < |v| ==> ComponentSurvives(fp, v[i])
    case _ => true
  }

  /** No REAL is whole or infinite, no vector is empty or holds a component that is not read back. */
  predicate Survives(fp: Floats, e: Expr) {
    match e
    case Compare(_, _, value) => LiteralSurvives(fp, value)
    case IsNull(_, _) => true
    case Not(inner) => Survives(fp, inner)
    case And(a, b) => Survives(fp, a) && Survives(fp, b)
    case Or(a, b) => Survives(fp, a) && Survives(fp, b)
  }

  predicate Printable(fp: Floats, e: Expr) {
    Named(e) && Survives(fp, e)
  }

  // ---------------------------------------------------------------- what is read back

  /** What the printed number is read as, if it is read at all. */
  function RereadNumber(fp: Floats, x: Float): Option<Literal> {
    if !x.size.Finite? then None
    else if x.size.d.fraction != "" then Some(RealLiteral(Float(x.negative, fp.r64(x.size.d))))
    else if x.size.d.whole > I64_MAX then None
    else Some(if x.negative then Negated(x.size.d.whole) else IntLiteral(x.size.d.whole))
  }

  function RereadComponent(fp: Floats, x: Float): Option<Float> {
    if !x.size.Finite? then None
    else if x.size.d.fraction != "" then Some(Float(x.negative, Narrow(fp, fp.r64(x.size.d))))
    else if x.size.d.whole > I64_MAX then None
    else Some(Float(x.negative, fp.r32(x.size.d)))
  }

  function RereadComponents(fp: Floats, v: seq<Float>): (r: Option<seq<Float>>)
    ensures r.Some? ==> |r.value| == |v|
  {
    if v == [] then Some([])
    else
      match RereadComponent(fp, v[0])
      case None => None
      case Some(x) =>
        match RereadComponents(fp, v[1..])
        case None => None
        case Some(rest) => Some([x] + rest)
  }

  function RereadLiteral(fp: Floats, v: Literal): Option<Literal> {
    match v
    case NullLiteral => Some(v)
    case IntLiteral(n) => RereadNumber(fp, WholeNumber(n))
    case RealLiteral(x) => RereadNumber(fp, x)
    case TextLiteral(_) => Some(v)
    case VectorLiteral(c) =>
      if c == [] then None
      else match RereadComponents(fp, c) case None => None case Some(d) => Some(VectorLiteral(d))
  }

  function Reread(fp: Floats, e: Expr): Option<Expr> {
    match e
    case Compare(column, op, value) =>
      (match RereadLiteral(fp, value) case None => None case Some(v) => Some(Compare(column, op, v)))
    case IsNull(_, _) => Some(e)
    case Not(inner) => (match Reread(fp, inner) case None => None case Some(x) => Some(Not(x)))
    case And(a, b) => Both(Reread(fp, a), Reread(fp, b), true)
    case Or(a, b) => Both(Reread(fp, a), Reread(fp, b), false)
  }

  function Both(a: Option<Expr>, b: Option<Expr>, and: bool): Option<Expr> {
    if a.None? || b.None? then None else Some(if and then And(a.value, b.value) else Or(a.value, b.value))
  }

  lemma {:induction false} ComponentsReread(fp: Floats, v: seq<Float>)
    requires forall i :: 0 <= i < |v| ==> IsFloat(fp.r32, v[i].size)
    ensures RereadComponents(fp, v) == Some(v) <==> forall i :: 0 <= i < |v| ==> ComponentSurvives(fp, v[i])
    decreases |v|
  {
    if v != [] {
      var x, rest := v[0], v[1..];
      ComponentsReread(fp, rest);
      assert v == [x] + rest;
      assert (forall i :: 0 <= i < |v| ==> ComponentSurvives(fp, v[i]))
        <==> ComponentSurvives(fp, x) && forall i :: 0 <= i < |rest| ==> ComponentSurvives(fp, rest[i]);
      assert x.size.Finite? && x.size.d.fraction == "" ==> x.size.d == Numeral(x.size.d.whole, "");
      assert RereadComponent(fp, x) == Some(x) <==> ComponentSurvives(fp, x);
      hide ComponentSurvives, RereadComponent, IsFloat;
      if RereadComponents(fp, v) == Some(v) {
        var y := RereadComponent(fp, x).value;
        var r := RereadComponents(fp, rest).value;
        assert v == [y] + r;
        assert y == ([y] + r)[0] && r == ([y] + r)[1..];
      }
    }
  }

  lemma LiteralReread(fp: Floats, v: Literal)
    requires PlainLiteral(fp, v) && (v.IntLiteral? ==> LEAST < v.n <= I64_MAX)
    ensures RereadLiteral(fp, v) == Some(v) <==> LiteralSurvives(fp, v)
  {
    match v
    case VectorLiteral(c) => ComponentsReread(fp, c);
    case _ =>
  }

  /** A printed expression is read back unchanged exactly when it survives. */
  lemma {:induction false} RereadExact(fp: Floats, e: Expr)
    requires Plain(fp, e) && Named(e)
    ensures Reread(fp, e) == Some(e) <==> Survives(fp, e)
  {
    hide RereadLiteral, LiteralSurvives, GoodName;
    match e
    case Compare(_, _, value) => LiteralReread(fp, value);
    case IsNull(_, _) =>
    case Not(inner) => RereadExact(fp, inner);
    case And(a, b) => RereadExact(fp, a); RereadExact(fp, b);
    case Or(a, b) => RereadExact(fp, a); RereadExact(fp, b);
  }

  /** Lexing and parsing a whole text as one expression. */
  function ParseText(fp: Floats, s: string): Option<Expr> {
    match Tokenize(s)
    case None => None
    case Some(tokens) =>
      match ParseExpr(fp, tokens)
      case None => None
      case Some(p) => if p.rest == [] then Some(p.value) else None
  }

  // ---------------------------------------------------------------- lexing pieces

  function Prepend(front: seq<Token>, rest: Option<seq<Token>>): Option<seq<Token>> {
    if rest.None? then None else Some(front + rest.value)
  }

  /** Two runs of tokens, unless one of them could not be lexed. */
  function Cat(a: Option<seq<Token>>, b: Option<seq<Token>>): Option<seq<Token>> {
    if a.None? then None else Prepend(a.value, b)
  }

  lemma CatTwice(a: Option<seq<Token>>, b: Option<seq<Token>>, c: Option<seq<Token>>)
    ensures Cat(Cat(a, b), c) == Cat(a, Cat(b, c))
  {
    if a.Some? && b.Some? && c.Some? {
      assert (a.value + b.value) + c.value == a.value + (b.value + c.value);
    }
  }

  lemma LexStep(s: string, token: Token, front: string, rest: string)
    requires front != "" && s == front + rest && LexOne(s) == Some(Lexeme(Some(token), |front|))
    ensures Tokenize(s) == Prepend([token], Tokenize(rest))
  {
    hide LexOne;
    assert s[|front|..] == rest;
  }

  lemma SpaceSkipped(rest: string)
    ensures Tokenize(" " + rest) == Tokenize(rest)
  {
    var s := " " + rest;
    assert s[1..] == rest;
    assert LexOne(s) == Some(Lexeme(None, 1));
    hide LexOne;
    assert Tokenize(s) == Tokenize(s[1..]);
  }

  predicate WordEnds(rest: string) {
    rest == "" || !IsWordChar(rest[0])
  }

  lemma {:induction false} WordSpan(w: string, rest: string)
    requires WordEnds(rest) && forall i :: 0 <= i < |w| ==> IsWordChar(w[i])
    ensures WordLength(w + rest) == |w|
  {
    if w == "" {
      assert w + rest == rest;
    } else {
      assert (w + rest)[1..] == w[1..] + rest;
      WordSpan(w[1..], rest);
    }
  }

  lemma WordIsOne(s: string, n: nat)
    requires s != "" && IsWordStart(s[0]) && n == WordLength(s)
    ensures n <= |s| && LexOne(s) == Some(Lexeme(Some(Ident(LowerAll(s[..n]))), n))
  {
    hide WordLength, LowerAll, LexQuoted, LexNumber, LineLength;
  }

  lemma WordLexed(w: string, rest: string)
    requires w != "" && IsWordStart(w[0]) && WordEnds(rest) && forall i :: 0 <= i < |w| ==> IsWordChar(w[i])
    ensures Tokenize(w + rest) == Prepend([Ident(LowerAll(w))], Tokenize(rest))
  {
    hide LexOne;
    WordSpan(w, rest);
    WordIsOne(w + rest, |w|);
    assert (w + rest)[..|w|] == w;
    LexStep(w + rest, Ident(LowerAll(w)), w, rest);
  }

  lemma NameLexed(w: string, rest: string)
    requires LowerWord(w) && WordEnds(rest)
    ensures Tokenize(w + rest) == Prepend([Ident(w)], Tokenize(rest))
  {
    hide Tokenize;
    assert LowerAll(w) == w;
    WordLexed(w, rest);
  }

  /** The upper-case keywords the printer writes, and the tokens they become. */
  predicate Keyword(upper: string, lower: string) {
    || (upper == "IS" && lower == "is")
    || (upper == "NOT" && lower == "not")
    || (upper == "NULL" && lower == "null")
    || (upper == "AND" && lower == "and")
    || (upper == "OR" && lower == "or")
  }

  lemma KeywordLexed(upper: string, lower: string, rest: string)
    requires Keyword(upper, lower) && WordEnds(rest)
    ensures Tokenize(upper + rest) == Prepend([Ident(lower)], Tokenize(rest))
  {
    hide Tokenize;
    assert LowerAll(upper) == lower;
    WordLexed(upper, rest);
  }

  lemma SymbolLexed(t: Token, s: string, rest: string)
    requires (t == LParen && s == "(") || (t == RParen && s == ")") || (t == LBracket && s == "[") || (t == RBracket && s == "]") || (t == Comma && s == ",")
    ensures Tokenize(s + rest) == Prepend([t], Tokenize(rest))
  {
    assert (s + rest)[0] == s[0];
    assert LexOne(s + rest) == Some(Lexeme(Some(t), 1));
    LexStep(s + rest, t, s, rest);
  }

  lemma MinusLexed(rest: string)
    requires rest != "" && rest[0] != '-'
    ensures Tokenize("-" + rest) == Prepend([Minus], Tokenize(rest))
  {
    var s := "-" + rest;
    assert s[0] == '-' && s[1] == rest[0];
    assert LexOne(s) == Some(Lexeme(Some(Minus), 1));
    LexStep(s, Minus, "-", rest);
  }

  function OpToken(op: CmpOp): Token {
    match op
    case Eq => EqTok
    case Ne => NeTok
    case Lt => LtTok
    case Gt => GtTok
    case Le => LeTok
    case Ge => GeTok
  }

  lemma OpIsOne(op: CmpOp, s: string, rest: string)
    requires s == PrintOp(op) + (" " + rest)
    ensures LexOne(s) == Some(Lexeme(Some(OpToken(op)), |PrintOp(op)|))
  {
    hide WordLength, LowerAll, LexQuoted, LexNumber, LineLength;
    assert s[0] == PrintOp(op)[0];
    assert s[1] == if |PrintOp(op)| == 1 then ' ' else PrintOp(op)[1];
  }

  lemma OpLexed(op: CmpOp, rest: string)
    ensures Tokenize(PrintOp(op) + (" " + rest)) == Prepend([OpToken(op)], Tokenize(" " + rest))
  {
    hide LexOne;
    OpIsOne(op, PrintOp(op) + (" " + rest), rest);
    LexStep(PrintOp(op) + (" " + rest), OpToken(op), PrintOp(op), " " + rest);
  }

  /** The texts a printed expression, literal or component stands before. */
  predicate Stops(rest: string) {
    rest == "" || rest[0] == ' ' || rest[0] == ')' || rest[0] == ',' || rest[0] == ']'
  }

  lemma {:induction false} DigitSpan(d: string, rest: string)
    requires (rest == "" || !IsDigit(rest[0])) && forall i :: 0 <= i < |d| ==> IsDigit(d[i])
    ensures DigitsLength(d + rest) == |d|
  {
    if d == "" {
      assert d + rest == rest;
    } else {
      assert (d + rest)[1..] == d[1..] + rest;
      DigitSpan(d[1..], rest);
    }
  }

  lemma {:induction false} NumberOfDecimal(n: nat)
    ensures NumberOf(Decimal(n)) == n
  {
    var d := Decimal(n);
    if n < 10 {
      assert d[..0] == "" && NumberOf("") == 0;
    } else {
      NumberOfDecimal(n / 10);
      assert d[..|d| - 1] == Decimal(n / 10) && d[|d| - 1] == DigitChar(n % 10);
    }
  }

  lemma NumberIsOne(s: string)
    requires s != "" && IsDigit(s[0])
    ensures LexOne(s) == LexNumber(s)
  {
    hide WordLength, LowerAll, LexQuoted, LexNumber, LineLength;
  }

  /** A number that does not fit 64 bits stops the lexer. */
  lemma NumberLexed(n: nat, rest: string)
    requires Stops(rest)
    ensures Tokenize(Decimal(n) + rest) == Cat(if n <= I64_MAX then Some([IntLit(n)]) else None, Tokenize(rest))
  {
    hide LexOne, NumberOf, Decimal, DigitsLength, Tokenize;
    var s := Decimal(n) + rest;
    var k := |Decimal(n)|;
    DigitSpan(Decimal(n), rest);
    NumberOfDecimal(n);
    assert s[..k] == Decimal(n) && (k < |s| ==> s[k] == rest[0]);
    assert s[0] == Decimal(n)[0];
    NumberIsOne(s);
    if n <= I64_MAX {
      LexStep(s, IntLit(n), Decimal(n), rest);
    } else {
      LexFails(s);
    }
  }

  lemma LexFails(s: string)
    requires s != "" && LexOne(s).None?
    ensures Tokenize(s).None?
  {
    hide LexOne;
  }

  /** A point between digits makes the number a float. */
  lemma FractionIsOne(s: string)
    requires s != "" && IsDigit(s[0])
    requires var k := DigitsLength(s); k + 1 < |s| && s[k] == '.' && IsDigit(s[k + 1]) && forall i :: 0 <= i < k ==> IsDigit(s[..k][i])
    ensures LexNumber(s) == Some(LexFloat(s, DigitsLength(s)))
  {
    hide DigitsLength, LexFloat;
  }

  /** Where the pieces of `whole.f` are, whatever follows. */
  lemma FractionPieces(whole: string, f: string, rest: string)
    requires whole != "" && f != ""
    ensures var s, k := (whole + ("." + f)) + rest, |whole|;
      && s == whole + ("." + (f + rest)) && k + 1 < |s| && s[..k] == whole && s[0] == whole[0] && s[k] == '.' && s[k + 1] == f[0]
      && s[k + 1..] == f + rest && s[k + 1..k + 1 + |f|] == f
  {
    var s := (whole + ("." + f)) + rest;
    assert s == whole + ("." + (f + rest));
    assert s[|whole| + 1..] == f + rest;
  }

  lemma FractionLexed(n: nat, f: string, rest: string)
    requires Stops(rest) && f != "" && forall i :: 0 <= i < |f| ==> IsDigit(f[i])
    ensures Tokenize((Decimal(n) + ("." + f)) + rest) == Prepend([FloatLit(Numeral(n, Trim(f)))], Tokenize(rest))
  {
    hide LexOne, LexNumber, NumberOf, Decimal, DigitsLength, Tokenize, Trim, IsDigit;
    var whole := Decimal(n);
    var s, k, m := (whole + ("." + f)) + rest, |whole|, |whole| + 1 + |f|;
    FractionPieces(whole, f, rest);
    PointIsNoDigit();
    DigitSpan(whole, "." + (f + rest));
    DigitSpan(f, rest);
    NumberOfDecimal(n);
    FractionIsOne(s);
    assert LexFloat(s, k) == Lexeme(Some(FloatLit(Numeral(n, Trim(f)))), m);
    NumberIsOne(s);
    LexStep(s, FloatLit(Numeral(n, Trim(f))), whole + ("." + f), rest);
  }

  lemma PointIsNoDigit()
    ensures !IsDigit('.') && !IsDigit(' ') && !IsDigit(')') && !IsDigit(',') && !IsDigit(']')
  {
  }

  lemma QuotedChar(c: char, rest: string, q: Quoted)
    requires c != '\'' && LexQuoted(rest) == Some(q)
    ensures LexQuoted([c] + rest) == Some(Quoted([c] + q.s, q.used + 1))
  {
    assert ([c] + rest)[1..] == rest;
  }

  lemma QuotedPair(rest: string, q: Quoted)
    requires LexQuoted(rest) == Some(q)
    ensures LexQuoted("''" + rest) == Some(Quoted("'" + q.s, q.used + 2))
  {
    assert ("''" + rest)[2..] == rest;
  }

  lemma QuotedEnd(rest: string)
    requires Stops(rest)
    ensures LexQuoted("'" + rest) == Some(Quoted("", 1))
  {
  }

  /** Doubling the quotes is undone, and the lone quote after them ends the literal. */
  lemma {:induction false} QuotedBack(s: string, rest: string)
    requires Stops(rest)
    ensures LexQuoted(Doubled(s) + ("'" + rest)) == Some(Quoted(s, |Doubled(s)| + 1))
  {
    hide LexQuoted;
    if s == "" {
      QuotedEnd(rest);
      assert Doubled(s) + ("'" + rest) == "'" + rest;
    } else {
      var next := Doubled(s[1..]) + ("'" + rest);
      QuotedBack(s[1..], rest);
      assert s == [s[0]] + s[1..];
      if s[0] == '\'' {
        QuotedPair(next, Quoted(s[1..], |Doubled(s[1..])| + 1));
        assert Doubled(s) + ("'" + rest) == "''" + next;
      } else {
        QuotedChar(s[0], next, Quoted(s[1..], |Doubled(s[1..])| + 1));
        assert Doubled(s) + ("'" + rest) == [s[0]] + next;
      }
    }
  }

  lemma QuoteIsOne(s: string, q: Quoted)
    requires s != "" && s[0] == '\'' && LexQuoted(s[1..]) == Some(q)
    ensures LexOne(s) == Some(Lexeme(Some(Str(q.s)), q.used + 1))
  {
    hide WordLength, LowerAll, LexQuoted, LexNumber, LineLength;
  }

  lemma TextLexed(s: string, rest: string)
    requires Stops(rest)
    ensures Tokenize("'" + (Doubled(s) + ("'" + rest))) == Prepend([Str(s)], Tokenize(rest))
  {
    hide LexOne, Tokenize, LexQuoted, Doubled;
    var t := "'" + (Doubled(s) + ("'" + rest));
    QuotedBack(s, rest);
    assert t[0] == '\'' && t[1..] == Doubled(s) + ("'" + rest);
    QuoteIsOne(t, Quoted(s, |Doubled(s)| + 1));
    var front := "'" + Doubled(s) + "'";
    assert t == front + rest;
    LexStep(t, Str(s), front, rest);
  }

  // ---------------------------------------------------------------- lexing a printed expression

  function SizeTokens(m: Magnitude): Option<seq<Token>> {
    match m
    case Finite(d) => if d.fraction != "" then Some([FloatLit(d)]) else if d.whole <= I64_MAX then Some([IntLit(d.whole)]) else None
    case Infinite => Some([Ident("inf")])
    case NotANumber => Some([Ident("nan")])
  }

  function FloatTokens(x: Float): Option<seq<Token>> {
    Cat(Some(if x.negative && !x.size.NotANumber? then [Minus] else []), SizeTokens(x.size))
  }

  function ComponentTokens(v: seq<Float>): Option<seq<Token>> {
    if v == [] then Some([])
    else if |v| == 1 then FloatTokens(v[0])
    else Cat(FloatTokens(v[0]), Cat(Some([Comma]), ComponentTokens(v[1..])))
  }

  function LiteralTokens(v: Literal): Option<seq<Token>> {
    match v
    case NullLiteral => Some([Ident("null")])
    case IntLiteral(n) => FloatTokens(WholeNumber(n))
    case RealLiteral(x) => FloatTokens(x)
    case TextLiteral(s) => Some([Str(s)])
    case VectorLiteral(v) => Cat(Some([LBracket]), Cat(ComponentTokens(v), Some([RBracket])))
  }

  /** The tokens of a printed expression, or none if a number in it does not fit 64 bits. */
  function TokensOf(e: Expr): Option<seq<Token>> {
    match e
    case Compare(column, op, value) => Cat(Some([Ident(column)]), Cat(Some([OpToken(op)]), LiteralTokens(value)))
    case IsNull(column, negated) =>
      Cat(Some([Ident(column)]), Cat(Some([Ident("is")]), Some((if negated then [Ident("not")] else []) + [Ident("null")])))
    case Not(inner) => Cat(Some([Ident("not")]), Cat(Some([LParen]), Cat(TokensOf(inner), Some([RParen]))))
    case And(a, b) => Joined(TokensOf(a), "and", TokensOf(b))
    case Or(a, b) => Joined(TokensOf(a), "or", TokensOf(b))
  }

  /** `(a WORD b)` in tokens. */
  function Joined(a: Option<seq<Token>>, word: string, b: Option<seq<Token>>): Option<seq<Token>> {
    Cat(Some([LParen]), Cat(a, Cat(Some([Ident(word)]), Cat(b, Some([RParen])))))
  }

  /** The text s reads as these tokens wherever a printed expression may stand. */
  ghost predicate Reads(s: string, tokens: Option<seq<Token>>, rest: string) {
    Tokenize(s + rest) == Cat(tokens, Tokenize(rest))
  }

  /** Two adjacent pieces. */
  lemma ReadsBoth(s: string, a: Option<seq<Token>>, t: string, b: Option<seq<Token>>, rest: string)
    requires Reads(s, a, t + rest) && Reads(t, b, rest)
    ensures Reads(s + t, Cat(a, b), rest)
  {
    hide Tokenize;
    assert s + (t + rest) == (s + t) + rest;
    CatTwice(a, b, Tokenize(rest));
  }

  lemma ReadsSpace(s: string, a: Option<seq<Token>>, rest: string)
    requires Reads(s, a, rest)
    ensures Reads(" " + s, a, rest)
  {
    hide Tokenize;
    assert (" " + s) + rest == " " + (s + rest);
    SpaceSkipped(s + rest);
  }

  lemma ReadsNothing(rest: string)
    ensures Reads("", Some([]), rest)
  {
    hide Tokenize;
    assert "" + rest == rest;
    if Tokenize(rest).Some? {
      assert [] + Tokenize(rest).value == Tokenize(rest).value;
    }
  }

  // ---------------------------------------------------------------- literals

  lemma SizeReads(m: Magnitude, rest: string)
    requires (m.Finite? ==> Canonical(m.d)) && Stops(rest)
    ensures Reads(PrintSize(m), SizeTokens(m), rest)
  {
    hide Tokenize, Decimal;
    match m
    case Finite(d) =>
      if d.fraction == "" {
        assert PrintSize(m) == Decimal(d.whole);
        NumberLexed(d.whole, rest);
      } else {
        assert Trim(d.fraction) == d.fraction;
        FractionLexed(d.whole, d.fraction, rest);
      }
    case Infinite =>
      assert LowerAll("inf") == "inf";
      WordLexed("inf", rest);
    case NotANumber =>
      assert LowerAll("NaN") == "nan";
      WordLexed("NaN", rest);
  }

  lemma SizeStarts(m: Magnitude)
    ensures PrintSize(m) != "" && PrintSize(m)[0] != '-'
  {
    if m.Finite? {
      assert IsDigit(Decimal(m.d.whole)[0]);
      assert PrintSize(m)[0] == Decimal(m.d.whole)[0];
    }
  }

  lemma FloatReads(x: Float, rest: string)
    requires (x.size.Finite? ==> Canonical(x.size.d)) && Stops(rest)
    ensures Reads(PrintFloat(x), FloatTokens(x), rest)
  {
    hide Tokenize, PrintSize, SizeTokens;
    var m := x.size;
    SizeReads(m, rest);
    if x.negative && !m.NotANumber? {
      SizeStarts(m);
      MinusLexed(PrintSize(m) + rest);
      ReadsBoth("-", Some([Minus]), PrintSize(m), SizeTokens(m), rest);
    } else {
      ReadsNothing(PrintSize(m) + rest);
      ReadsBoth("", Some([]), PrintSize(m), SizeTokens(m), rest);
    }
  }

  lemma CommaReads(s: string, tokens: Option<seq<Token>>, rest: string)
    requires Reads(s, tokens, rest)
    ensures Reads(", " + s, Cat(Some([Comma]), tokens), rest)
  {
    hide Tokenize;
    ReadsSpace(s, tokens, rest);
    SymbolLexed(Comma, ",", (" " + s) + rest);
    ReadsBoth(",", Some([Comma]), " " + s, tokens, rest);
    assert "," + (" " + s) == ", " + s;
  }

  lemma {:induction false} ComponentsRead(v: seq<Float>, rest: string)
    requires (forall i :: 0 <= i < |v| && v[i].size.Finite? ==> Canonical(v[i].size.d)) && Stops(rest)
    ensures Reads(PrintComponents(v), ComponentTokens(v), rest)
    decreases |v|
  {
    hide Reads, PrintFloat, FloatTokens, Canonical;
    if v == [] {
      ReadsNothing(rest);
    } else if |v| == 1 {
      FloatReads(v[0], rest);
    } else {
      ComponentsRead(v[1..], rest);
      CommaReads(PrintComponents(v[1..]), ComponentTokens(v[1..]), rest);
      var after := ", " + PrintComponents(v[1..]);
      assert (after + rest)[0] == ',';
      FloatReads(v[0], after + rest);
      ReadsBoth(PrintFloat(v[0]), FloatTokens(v[0]), after, Cat(Some([Comma]), ComponentTokens(v[1..])), rest);
    }
  }

  /** Every decimal in the literal is canonical, so that it is lexed as itself. */
  predicate Lexable(v: Literal) {
    match v
    case RealLiteral(x) => x.size.Finite? ==> Canonical(x.size.d)
    case VectorLiteral(v) => forall i :: 0 <= i < |v| && v[i].size.Finite? ==> Canonical(v[i].size.d)
    case _ => true
  }

  lemma VectorReads(v: seq<Float>, rest: string)
    requires Lexable(VectorLiteral(v))
    ensures Reads(PrintLiteral(VectorLiteral(v)), LiteralTokens(VectorLiteral(v)), rest)
  {
    hide Tokenize, PrintComponents, ComponentTokens, Canonical;
    var c := PrintComponents(v);
    SymbolLexed(RBracket, "]", rest);
    ComponentsRead(v, "]" + rest);
    ReadsBoth(c, ComponentTokens(v), "]", Some([RBracket]), rest);
    SymbolLexed(LBracket, "[", (c + "]") + rest);
    ReadsBoth("[", Some([LBracket]), c + "]", Cat(ComponentTokens(v), Some([RBracket])), rest);
  }

  lemma LiteralReads(v: Literal, rest: string)
    requires Lexable(v) && Stops(rest)
    ensures Reads(PrintLiteral(v), LiteralTokens(v), rest)
  {
    hide Tokenize, Doubled, PrintFloat, FloatTokens, PrintComponents, ComponentTokens;
    match v
    case NullLiteral => KeywordLexed("NULL", "null", rest);
    case IntLiteral(n) => FloatReads(WholeNumber(n), rest);
    case RealLiteral(x) => FloatReads(x, rest);
    case TextLiteral(s) =>
      TextLexed(s, rest);
      assert PrintLiteral(v) + rest == "'" + (Doubled(s) + ("'" + rest));
    case VectorLiteral(c) => VectorReads(c, rest);
  }

  // ---------------------------------------------------------------- expressions

  lemma CompareReads(column: string, op: CmpOp, v: Literal, rest: string)
    requires LowerWord(column) && Lexable(v) && Stops(rest)
    ensures Reads(Print(Compare(column, op, v)), TokensOf(Compare(column, op, v)), rest)
  {
    hide Tokenize, PrintLiteral, LiteralTokens, PrintOp, OpToken, Lexable;
    LiteralReads(v, rest);
    ReadsSpace(PrintLiteral(v), LiteralTokens(v), rest);
    var tail, tokens := " " + PrintLiteral(v), Cat(Some([OpToken(op)]), LiteralTokens(v));
    assert tail + rest == " " + (PrintLiteral(v) + rest);
    OpLexed(op, PrintLiteral(v) + rest);
    ReadsBoth(PrintOp(op), Some([OpToken(op)]), tail, LiteralTokens(v), rest);
    ReadsSpace(PrintOp(op) + tail, tokens, rest);
    var after := " " + (PrintOp(op) + tail);
    assert (after + rest)[0] == ' ';
    NameLexed(column, after + rest);
    ReadsBoth(column, Some([Ident(column)]), after, tokens, rest);
  }

  lemma KeywordReads(upper: string, lower: string, tail: string, tokens: Option<seq<Token>>, rest: string)
    requires Keyword(upper, lower) && Reads(tail, tokens, rest)
    ensures Reads(upper + (" " + tail), Cat(Some([Ident(lower)]), tokens), rest)
  {
    hide Tokenize;
    ReadsSpace(tail, tokens, rest);
    assert ((" " + tail) + rest)[0] == ' ';
    KeywordLexed(upper, lower, (" " + tail) + rest);
    ReadsBoth(upper, Some([Ident(lower)]), " " + tail, tokens, rest);
  }

  lemma IsNullReads(column: string, negated: bool, rest: string)
    requires LowerWord(column) && Stops(rest)
    ensures Reads(Print(IsNull(column, negated)), TokensOf(IsNull(column, negated)), rest)
  {
    hide Tokenize;
    KeywordLexed("NULL", "null", rest);
    KeywordReads("NOT", "not", "NULL", Some([Ident("null")]), rest);
    var tail := (if negated then "NOT " else "") + "NULL";
    var tokens := Some((if negated then [Ident("not")] else []) + [Ident("null")]);
    assert "NOT" + (" " + "NULL") == "NOT " + "NULL" && "" + "NULL" == "NULL";
    assert Reads(tail, tokens, rest) by {
      assert [] + [Ident("null")] == [Ident("null")];
    }
    KeywordReads("IS", "is", tail, tokens, rest);
    ReadsSpace("IS" + (" " + tail), Cat(Some([Ident("is")]), tokens), rest);
    var after := " " + ("IS" + (" " + tail));
    assert after == " IS " + tail && (after + rest)[0] == ' ';
    NameLexed(column, after + rest);
    ReadsBoth(column, Some([Ident(column)]), after, Cat(Some([Ident("is")]), tokens), rest);
  }

  /** Something followed by a closing parenthesis. */
  lemma ClosedReads(s: string, tokens: Option<seq<Token>>, rest: string)
    requires Reads(s, tokens, ")" + rest)
    ensures Reads(s + ")", Cat(tokens, Some([RParen])), rest)
  {
    hide Tokenize;
    SymbolLexed(RParen, ")", rest);
    ReadsBoth(s, tokens, ")", Some([RParen]), rest);
  }

  lemma OpenReads(s: string, tokens: Option<seq<Token>>, rest: string)
    requires Reads(s, tokens, rest)
    ensures Reads("(" + s, Cat(Some([LParen]), tokens), rest)
  {
    hide Tokenize;
    SymbolLexed(LParen, "(", s + rest);
    ReadsBoth("(", Some([LParen]), s, tokens, rest);
  }

  lemma NotReads(s: string, tokens: Option<seq<Token>>, rest: string)
    requires Reads(s, tokens, ")" + rest)
    ensures Reads("NOT (" + (s + ")"), Cat(Some([Ident("not")]), Cat(Some([LParen]), Cat(tokens, Some([RParen])))), rest)
  {
    hide Tokenize, Cat;
    ClosedReads(s, tokens, rest);
    var closed := Cat(tokens, Some([RParen]));
    OpenReads(s + ")", closed, rest);
    KeywordReads("NOT", "not", "(" + (s + ")"), Cat(Some([LParen]), closed), rest);
    assert "NOT" + (" " + ("(" + (s + ")"))) == "NOT (" + (s + ")");
  }

  /** `(a WORD b)`, given how a and b read. */
  lemma JoinReads(upper: string, lower: string, a: string, x: Option<seq<Token>>, b: string, y: Option<seq<Token>>, rest: string)
    requires Keyword(upper, lower) && Reads(b, y, ")" + rest)
    requires Reads(a, x, (" " + (upper + (" " + (b + ")")))) + rest)
    ensures Reads("(" + (a + (" " + (upper + (" " + (b + ")"))))), Joined(x, lower, y), rest)
  {
    hide Tokenize, Keyword, Cat;
    ClosedReads(b, y, rest);
    var closed := Cat(y, Some([RParen]));
    KeywordReads(upper, lower, b + ")", closed, rest);
    var tail := Cat(Some([Ident(lower)]), closed);
    ReadsSpace(upper + (" " + (b + ")")), tail, rest);
    ReadsBoth(a, x, " " + (upper + (" " + (b + ")"))), tail, rest);
    OpenReads(a + (" " + (upper + (" " + (b + ")")))), Cat(x, tail), rest);
  }

  /** The columns are lower-case words and the decimals canonical. */
  predicate Spelled(e: Expr) {
    match e
    case Compare(column, _, value) => GoodName(column) && Lexable(value)
    case IsNull(column, _) => GoodName(column)
    case Not(inner) => Spelled(inner)
    case And(a, b) => Spelled(a) && Spelled(b)
    case Or(a, b) => Spelled(a) && Spelled(b)
  }

  /** A printed expression lexes to its tokens, or not at all, whatever stands behind it. */
  lemma {:induction false} PrintedReads(e: Expr, rest: string)
    requires Spelled(e) && Stops(rest)
    ensures Reads(Print(e), TokensOf(e), rest)
    decreases e
  {
    hide Reads, LowerWord, Lexable, Cat, Joined;
    match e
    case Compare(column, op, value) => CompareReads(column, op, value, rest);
    case IsNull(column, negated) => IsNullReads(column, negated, rest);
    case Not(inner) =>
      PrintedReads(inner, ")" + rest);
      NotReads(Print(inner), TokensOf(inner), rest);
    case And(a, b) =>
      PrintedReads(b, ")" + rest);
      var after := " " + ("AND" + (" " + (Print(b) + ")")));
      assert after == " AND " + (Print(b) + ")") && (after + rest)[0] == ' ';
      PrintedReads(a, after + rest);
      JoinReads("AND", "and", Print(a), TokensOf(a), Print(b), TokensOf(b), rest);
    case Or(a, b) =>
      PrintedReads(b, ")" + rest);
      var after := " " + ("OR" + (" " + (Print(b) + ")")));
      assert after == " OR " + (Print(b) + ")") && (after + rest)[0] == ' ';
      PrintedReads(a, after + rest);
      JoinReads("OR", "or", Print(a), TokensOf(a), Print(b), TokensOf(b), rest);
  }

  // ---------------------------------------------------------------- parsing the tokens

  /** A parse result, if there is one. */
  function Then<T>(value: Option<T>, rest: seq<Token>): Option<Parsed<T>> {
    if value.None? then None else Some(Parsed(value.value, rest))
  }

  lemma NumberParses(fp: Floats, x: Float, rest: seq<Token>)
    requires FloatTokens(x).Some?
    ensures ParseLiteral(fp, FloatTokens(x).value + rest) == Then(RereadNumber(fp, x), rest)
  {
    hide ParseComponent, ParseComponents;
    var t := FloatTokens(x).value + rest;
    if x.negative && !x.size.NotANumber? {
      assert t[0] == Minus && t[1] == SizeTokens(x.size).value[0] && t[2..] == rest;
    } else {
      assert t[0] == SizeTokens(x.size).value[0] && t[1..] == rest;
    }
  }

  lemma ComponentParses(fp: Floats, x: Float, rest: seq<Token>)
    requires FloatTokens(x).Some?
    ensures ParseComponent(fp, FloatTokens(x).value + rest) == Then(RereadComponent(fp, x), rest)
  {
    var t, size := FloatTokens(x).value + rest, SizeTokens(x.size).value;
    if x.negative && !x.size.NotANumber? {
      assert t[0] == Minus && t[1..][0] == size[0] && t[1..][1..] == rest;
    } else {
      assert t[0] == size[0] && t[1..] == rest;
    }
  }

  lemma ComponentTokensAre(v: seq<Float>)
    requires v != []
    ensures |v| == 1 ==> ComponentTokens(v) == FloatTokens(v[0])
    ensures |v| > 1 ==> ComponentTokens(v) == Cat(FloatTokens(v[0]), Cat(Some([Comma]), ComponentTokens(v[1..])))
  {
    hide FloatTokens;
  }

  lemma Regrouped(x: seq<Token>, y: seq<Token>, rest: seq<Token>)
    ensures (x + ([Comma] + y)) + rest == x + ([Comma] + (y + rest))
  {
  }

  /** The tokens of the first component and of the others, with what follows. */
  lemma ComponentTokensFirst(v: seq<Float>, rest: seq<Token>)
    requires v != [] && ComponentTokens(v).Some?
    ensures FloatTokens(v[0]).Some?
    ensures |v| == 1 ==> ComponentTokens(v) == FloatTokens(v[0])
    ensures |v| > 1 ==> ComponentTokens(v[1..]).Some?
    ensures |v| > 1 ==> ComponentTokens(v).value + rest == FloatTokens(v[0]).value + ([Comma] + (ComponentTokens(v[1..]).value + rest))
  {
    hide FloatTokens, ComponentTokens;
    ComponentTokensAre(v);
    if |v| > 1 {
      Regrouped(FloatTokens(v[0]).value, ComponentTokens(v[1..]).value, rest);
    }
  }

  function Finish(done: seq<Float>, v: Option<seq<Float>>): Option<Literal> {
    if v.None? then None else Some(VectorLiteral(done + v.value))
  }

  /** The components of a vector, after those read already. */
  lemma {:induction false} ComponentsParse(fp: Floats, done: seq<Float>, v: seq<Float>, rest: seq<Token>)
    requires v != [] && ComponentTokens(v).Some?
    ensures var p := ParseComponent(fp, ComponentTokens(v).value + ([RBracket] + rest));
      Then(Finish(done, RereadComponents(fp, v)), rest)
      == if p.None? then None else ParseComponents(fp, done + [p.value.value], p.value.rest)
    decreases |v|
  {
    hide ParseComponent, FloatTokens, RereadComponent, ComponentTokens;
    var close := [RBracket] + rest;
    assert close[1..] == rest;
    ComponentTokensFirst(v, close);
    if |v| == 1 {
      ComponentParses(fp, v[0], close);
      assert v[1..] == [];
      assert RereadComponents(fp, v[1..]) == Some([]);
      if RereadComponent(fp, v[0]).Some? {
        var x := RereadComponent(fp, v[0]).value;
        assert done + ([x] + []) == done + [x];
      }
    } else {
      var tail := ComponentTokens(v[1..]).value + close;
      ComponentParses(fp, v[0], [Comma] + tail);
      assert ([Comma] + tail)[1..] == tail;
      if RereadComponent(fp, v[0]).Some? {
        var x := RereadComponent(fp, v[0]).value;
        ComponentsParse(fp, done + [x], v[1..], rest);
        if RereadComponents(fp, v[1..]).Some? {
          assert (done + [x]) + RereadComponents(fp, v[1..]).value == done + ([x] + RereadComponents(fp, v[1..]).value);
        }
      }
    }
  }

  lemma VectorParses(fp: Floats, v: seq<Float>, rest: seq<Token>)
    requires LiteralTokens(VectorLiteral(v)).Some?
    ensures ParseLiteral(fp, LiteralTokens(VectorLiteral(v)).value + rest) == Then(RereadLiteral(fp, VectorLiteral(v)), rest)
  {
    hide ComponentTokens, RereadComponents;
    var t := LiteralTokens(VectorLiteral(v)).value + rest;
    assert t[0] == LBracket && t[1..] == ComponentTokens(v).value + ([RBracket] + rest);
    if v == [] {
      assert ComponentTokens(v).value == [] by { NoTokens(); }
      assert t[1..][0] == RBracket;
    } else {
      hide ParseComponent, ParseComponents;
      ComponentsParse(fp, [], v, rest);
      if RereadComponents(fp, v).Some? {
        assert [] + RereadComponents(fp, v).value == RereadComponents(fp, v).value;
      }
      var p := ParseComponent(fp, t[1..]);
      assert p.Some? ==> [] + [p.value.value] == [p.value.value];
    }
  }

  lemma NoTokens()
    ensures ComponentTokens([]) == Some([])
  {
  }

  lemma LiteralParses(fp: Floats, v: Literal, rest: seq<Token>)
    requires LiteralTokens(v).Some?
    ensures ParseLiteral(fp, LiteralTokens(v).value + rest) == Then(RereadLiteral(fp, v), rest)
  {
    hide FloatTokens, ParseComponent, ParseComponents, RereadNumber;
    match v
    case NullLiteral => assert ([Ident("null")] + rest)[1..] == rest;
    case TextLiteral(s) => assert ([Str(s)] + rest)[1..] == rest;
    case IntLiteral(n) => NumberParses(fp, WholeNumber(n), rest);
    case RealLiteral(x) => NumberParses(fp, x, rest);
    case VectorLiteral(c) => VectorParses(fp, c, rest);
  }

  lemma CompareParses(fp: Floats, column: string, op: CmpOp, v: Literal, rest: seq<Token>)
    requires GoodName(column) && TokensOf(Compare(column, op, v)).Some?
    ensures ParseNot(fp, TokensOf(Compare(column, op, v)).value + rest) == Then(Reread(fp, Compare(column, op, v)), rest)
  {
    hide ParseLiteral, LiteralTokens, ParseExpr, RereadLiteral;
    var t := TokensOf(Compare(column, op, v)).value + rest;
    assert t[0] == Ident(column) && t[1..][0] == OpToken(op);
    assert t[1..][1..] == LiteralTokens(v).value + rest;
    LiteralParses(fp, v, rest);
    assert OpOf(OpToken(op)) == Some(op);
  }

  lemma IsNullParses(fp: Floats, column: string, negated: bool, rest: seq<Token>)
    requires GoodName(column)
    ensures TokensOf(IsNull(column, negated)).Some?
    ensures ParseNot(fp, TokensOf(IsNull(column, negated)).value + rest) == Some(Parsed(IsNull(column, negated), rest))
  {
    hide ParseExpr, ParseComparison;
    var t := TokensOf(IsNull(column, negated)).value + rest;
    assert t[0] == Ident(column) && t[1..][0] == Ident("is");
    var u := t[2..];
    if negated {
      assert u[0] == Ident("not") && u[1..][0] == Ident("null") && u[1..][1..] == rest;
    } else {
      assert u[0] == Ident("null") && u[1..] == rest;
    }
  }

  /** An expression in parentheses is a primary. */
  lemma ParensParse(fp: Floats, tokens: seq<Token>, e: Option<Expr>, rest: seq<Token>)
    requires tokens != [] && tokens[0] == LParen && ParseExpr(fp, tokens[1..]) == Then(e, [RParen] + rest)
    ensures ParseNot(fp, tokens) == Then(e, rest)
  {
    hide ParseExpr;
    assert ([RParen] + rest)[1..] == rest;
  }

  /** Before a closing parenthesis or the end, a NOT-level expression is a whole expression. */
  lemma LoneParses(fp: Floats, tokens: seq<Token>, e: Option<Expr>, rest: seq<Token>)
    requires ParseNot(fp, tokens) == Then(e, rest) && !StartsWithWord(rest, "and") && !StartsWithWord(rest, "or")
    ensures ParseExpr(fp, tokens) == Then(e, rest)
  {
    hide ParseNot, ParseAndTail, ParseOrTail;
    if e.Some? {
      AndTailStops(fp, e.value, rest);
      OrTailStops(fp, e.value, rest);
    }
  }

  lemma AndParses(fp: Floats, tokens: seq<Token>, a: Option<Expr>, middle: seq<Token>, b: Option<Expr>, rest: seq<Token>)
    requires ParseNot(fp, tokens) == Then(a, [Ident("and")] + middle) && ParseNot(fp, middle) == Then(b, rest)
    requires !StartsWithWord(rest, "and") && !StartsWithWord(rest, "or")
    ensures ParseExpr(fp, tokens) == Then(Both(a, b, true), rest)
  {
    var t := [Ident("and")] + middle;
    assert t[1..] == middle;
    if a.Some? {
      AndTailNext(fp, a.value, t);
      if b.Some? {
        AndTailStops(fp, And(a.value, b.value), rest);
        OrTailStops(fp, And(a.value, b.value), rest);
      }
    }
    hide ParseNot, ParseAndTail, ParseOrTail;
  }

  lemma AndAlone(fp: Floats, tokens: seq<Token>, a: Option<Expr>, rest: seq<Token>)
    requires ParseNot(fp, tokens) == Then(a, rest) && !StartsWithWord(rest, "and")
    ensures ParseAnd(fp, tokens) == Then(a, rest)
  {
    if a.Some? {
      AndTailStops(fp, a.value, rest);
    }
    hide ParseNot, ParseAndTail;
  }

  lemma OrParses(fp: Floats, tokens: seq<Token>, a: Option<Expr>, middle: seq<Token>, b: Option<Expr>, rest: seq<Token>)
    requires ParseNot(fp, tokens) == Then(a, [Ident("or")] + middle) && ParseNot(fp, middle) == Then(b, rest)
    requires !StartsWithWord(rest, "and") && !StartsWithWord(rest, "or")
    ensures ParseExpr(fp, tokens) == Then(Both(a, b, false), rest)
  {
    var t := [Ident("or")] + middle;
    assert t[1..] == middle;
    AndAlone(fp, tokens, a, t);
    AndAlone(fp, middle, b, rest);
    if a.Some? {
      OrTailNext(fp, a.value, t);
      if b.Some? {
        OrTailStops(fp, Or(a.value, b.value), rest);
      }
    }
    hide ParseAnd, ParseOrTail;
  }

  function Negation(e: Option<Expr>): Option<Expr> {
    if e.None? then None else Some(Not(e.value))
  }

  lemma NotReadBack(fp: Floats, inner: seq<Token>, e: Option<Expr>, rest: seq<Token>)
    requires ParseNot(fp, inner + ([RParen] + rest)) == Then(e, [RParen] + rest)
    ensures ParseNot(fp, ([Ident("not")] + ([LParen] + (inner + [RParen]))) + rest) == Then(Negation(e), rest)
  {
    hide ParsePrimary, ParseExpr;
    var t := ([Ident("not")] + ([LParen] + (inner + [RParen]))) + rest;
    assert t[0] == Ident("not") && t[1..][0] == LParen && t[1..][1..] == inner + ([RParen] + rest);
    LoneParses(fp, inner + ([RParen] + rest), e, [RParen] + rest);
    ParensParse(fp, t[1..], e, rest);
  }

  /** `(a WORD b)` in tokens, with what follows, regrouped. */
  lemma JoinTokens(a: seq<Token>, word: Token, b: seq<Token>, rest: seq<Token>)
    ensures var t := ([LParen] + (a + ([word] + (b + [RParen])))) + rest;
      t != [] && t[0] == LParen && t[1..] == a + ([word] + (b + ([RParen] + rest)))
  {
  }

  lemma JoinReadBack(fp: Floats, a: seq<Token>, x: Option<Expr>, and: bool, b: seq<Token>, y: Option<Expr>, rest: seq<Token>)
    requires ParseNot(fp, b + ([RParen] + rest)) == Then(y, [RParen] + rest)
    requires var word, middle := Ident(if and then "and" else "or"), b + ([RParen] + rest);
      ParseNot(fp, a + ([word] + middle)) == Then(x, [word] + middle)
    ensures var word := Ident(if and then "and" else "or");
      ParseNot(fp, ([LParen] + (a + ([word] + (b + [RParen])))) + rest) == Then(Both(x, y, and), rest)
  {
    hide ParseNot, ParseExpr;
    var word, middle := Ident(if and then "and" else "or"), b + ([RParen] + rest);
    if and {
      AndParses(fp, a + ([word] + middle), x, middle, y, [RParen] + rest);
    } else {
      OrParses(fp, a + ([word] + middle), x, middle, y, [RParen] + rest);
    }
    JoinTokens(a, word, b, rest);
    ParensParse(fp, ([LParen] + (a + ([word] + (b + [RParen])))) + rest, Both(x, y, and), rest);
  }

  /** The parser reads from the tokens of an expression what is to be reread, whatever follows. */
  lemma {:induction false} TokensParse(fp: Floats, e: Expr, rest: seq<Token>)
    requires Spelled(e) && TokensOf(e).Some?
    ensures ParseNot(fp, TokensOf(e).value + rest) == Then(Reread(fp, e), rest)
    decreases e
  {
    hide ParseNot, ParseExpr, GoodName, Lexable;
    var close := [RParen] + rest;
    match e
    case Compare(column, op, value) => CompareParses(fp, column, op, value, rest);
    case IsNull(column, negated) => IsNullParses(fp, column, negated, rest);
    case Not(inner) =>
      TokensParse(fp, inner, close);
      NotReadBack(fp, TokensOf(inner).value, Reread(fp, inner), rest);
    case And(a, b) =>
      TokensParse(fp, b, close);
      TokensParse(fp, a, [Ident("and")] + (TokensOf(b).value + close));
      JoinReadBack(fp, TokensOf(a).value, Reread(fp, a), true, TokensOf(b).value, Reread(fp, b), rest);
    case Or(a, b) =>
      TokensParse(fp, b, close);
      TokensParse(fp, a, [Ident("or")] + (TokensOf(b).value + close));
      JoinReadBack(fp, TokensOf(a).value, Reread(fp, a), false, TokensOf(b).value, Reread(fp, b), rest);
  }

  /** What cannot be lexed has no reading either. */
  lemma {:induction false} ComponentsUnlexed(fp: Floats, v: seq<Float>)
    requires ComponentTokens(v).None?
    ensures RereadComponents(fp, v).None?
    decreases |v|
  {
    if |v| > 1 && FloatTokens(v[0]).Some? {
      ComponentsUnlexed(fp, v[1..]);
    }
  }

  lemma {:induction false} Unlexed(fp: Floats, e: Expr)
    requires TokensOf(e).None?
    ensures Reread(fp, e).None?
  {
    hide FloatTokens, ComponentTokens, RereadComponents;
    match e
    case Compare(_, _, value) =>
      match value {
        case VectorLiteral(c) => ComponentsUnlexed(fp, c);
        case RealLiteral(x) => NumberUnlexed(fp, x);
        case IntLiteral(n) => NumberUnlexed(fp, WholeNumber(n));
        case _ =>
      }
    case IsNull(_, _) =>
    case Not(inner) => Unlexed(fp, inner);
    case And(a, b) => if TokensOf(a).None? { Unlexed(fp, a); } else { Unlexed(fp, b); }
    case Or(a, b) => if TokensOf(a).None? { Unlexed(fp, a); } else { Unlexed(fp, b); }
  }

  lemma NumberUnlexed(fp: Floats, x: Float)
    requires FloatTokens(x).None?
    ensures RereadNumber(fp, x).None?
  {
  }

  // ---------------------------------------------------------------- what the parser returns

  predicate GoodToken(t: Token) {
    match t
    case Ident(w) => LowerWord(w)
    case IntLit(n) => n <= I64_MAX
    case FloatLit(d) => Canonical(d)
    case _ => true
  }

  predicate GoodTokens(tokens: seq<Token>) {
    forall i :: 0 <= i < |tokens| ==> GoodToken(tokens[i])
  }

  /** A word reaches as far as word characters go. */
  lemma {:induction false} WordSpanChars(s: string)
    ensures forall i :: 0 <= i < WordLength(s) ==> IsWordChar(s[i])
    ensures s != "" && IsWordChar(s[0]) ==> WordLength(s) > 0
  {
    if s != "" && IsWordChar(s[0]) {
      WordSpanChars(s[1..]);
      assert forall i :: 1 <= i < WordLength(s) ==> s[i] == s[1..][i - 1];
    }
  }

  lemma FloatIsGood(s: string, n: nat)
    requires n < |s| && forall i :: 0 <= i < n ==> IsDigit(s[..n][i])
    ensures LexFloat(s, n).token.Some? && GoodToken(LexFloat(s, n).token.value)
  {
    hide NumberOf, DigitsLength, Trim;
    SpanIsDigits(s[n + 1..]);
  }

  lemma NumberIsGood(s: string)
    requires s != "" && IsDigit(s[0])
    ensures LexNumber(s).Some? ==> LexNumber(s).value.token.Some? && GoodToken(LexNumber(s).value.token.value)
  {
    hide NumberOf, DigitsLength, LexFloat, LowerWord, Canonical;
    var n := DigitsLength(s);
    SpanIsDigits(s);
    if n < |s| {
      FloatIsGood(s, n);
    }
  }

  lemma OneIsGood(s: string)
    requires s != ""
    ensures LexOne(s).Some? && LexOne(s).value.token.Some? ==> GoodToken(LexOne(s).value.token.value)
  {
    hide WordLength, LexQuoted, LineLength, LexNumber, Canonical;
    WordSpanChars(s);
    if IsDigit(s[0]) {
      NumberIsOne(s);
      NumberIsGood(s);
    }
  }

  lemma {:induction false} LexedIsGood(s: string)
    ensures Tokenize(s).Some? ==> GoodTokens(Tokenize(s).value)
    decreases |s|
  {
    hide LexOne, GoodToken;
    if s != "" && LexOne(s).Some? {
      OneIsGood(s);
      LexedIsGood(s[LexOne(s).value.used..]);
    }
  }

  /** Good columns and integers; with lawful rounding also proper floats. */
  ghost predicate SoundExpr(fp: Floats, e: Expr) {
    Named(e) && (Lawful(fp) ==> Plain(fp, e))
  }

  /** A sound parse result, leaving good tokens. */
  ghost predicate Sound(fp: Floats, r: Option<Parsed<Expr>>) {
    r.Some? ==> SoundExpr(fp, r.value.value) && GoodTokens(r.value.rest)
  }

  lemma {:induction false} ExprSound(fp: Floats, tokens: seq<Token>)
    requires GoodTokens(tokens)
    ensures Sound(fp, ParseExpr(fp, tokens))
    decreases |tokens|, 4
  {
    hide ParseAnd, ParseOrTail, GoodToken, Lawful;
    AndSound(fp, tokens);
    if ParseAnd(fp, tokens).Some? {
      OrTailSound(fp, ParseAnd(fp, tokens).value.value, ParseAnd(fp, tokens).value.rest);
    }
  }

  lemma {:induction false} OrTailSound(fp: Floats, left: Expr, tokens: seq<Token>)
    requires GoodTokens(tokens) && SoundExpr(fp, left)
    ensures Sound(fp, ParseOrTail(fp, left, tokens))
    decreases |tokens|, 5
  {
    if StartsWithWord(tokens, "or") {
      AndSound(fp, tokens[1..]);
      OrTailNext(fp, left, tokens);
      if ParseAnd(fp, tokens[1..]).Some? {
        var p := ParseAnd(fp, tokens[1..]).value;
        OrTailSound(fp, Or(left, p.value), p.rest);
      }
    } else {
      OrTailStops(fp, left, tokens);
    }
    hide ParseAnd, ParseOrTail, GoodToken, Lawful;
  }

  lemma {:induction false} AndSound(fp: Floats, tokens: seq<Token>)
    requires GoodTokens(tokens)
    ensures Sound(fp, ParseAnd(fp, tokens))
    decreases |tokens|, 3
  {
    hide ParseNot, ParseAndTail, GoodToken, Lawful;
    NotSound(fp, tokens);
    if ParseNot(fp, tokens).Some? {
      AndTailSound(fp, ParseNot(fp, tokens).value.value, ParseNot(fp, tokens).value.rest);
    }
  }

  lemma {:induction false} AndTailSound(fp: Floats, left: Expr, tokens: seq<Token>)
    requires GoodTokens(tokens) && SoundExpr(fp, left)
    ensures Sound(fp, ParseAndTail(fp, left, tokens))
    decreases |tokens|, 5
  {
    if StartsWithWord(tokens, "and") {
      NotSound(fp, tokens[1..]);
      AndTailNext(fp, left, tokens);
      if ParseNot(fp, tokens[1..]).Some? {
        var p := ParseNot(fp, tokens[1..]).value;
        AndTailSound(fp, And(left, p.value), p.rest);
      }
    } else {
      AndTailStops(fp, left, tokens);
    }
    hide ParseNot, ParseAndTail, GoodToken, Lawful;
  }

  lemma {:induction false} NotSound(fp: Floats, tokens: seq<Token>)
    requires GoodTokens(tokens)
    ensures Sound(fp, ParseNot(fp, tokens))
    decreases |tokens|, 2
  {
    hide ParsePrimary, GoodToken, Lawful;
    if StartsWithWord(tokens, "not") {
      NotSound(fp, tokens[1..]);
    } else {
      PrimarySound(fp, tokens);
    }
  }

  lemma {:induction false} PrimarySound(fp: Floats, tokens: seq<Token>)
    requires GoodTokens(tokens) && !StartsWithWord(tokens, "not")
    ensures Sound(fp, ParsePrimary(fp, tokens))
    decreases |tokens|, 1
  {
    hide ParseExpr, ParseLiteral, LowerWord, Lawful, PlainLiteral;
    if StartsWith(tokens, LParen) {
      ExprSound(fp, tokens[1..]);
    } else if tokens != [] && tokens[0].Ident? {
      assert GoodToken(tokens[0]);
      if |tokens| > 1 {
        assert GoodTokens(tokens[2..]);
      }
      LiteralSound(fp, if |tokens| > 1 then tokens[2..] else []);
      assert |tokens| > 1 ==> tokens[1..][1..] == tokens[2..];
    }
  }

  lemma NarrowSound(fp: Floats, d: Numeral)
    requires Lawful(fp) && Canonical(d)
    ensures IsFloat(fp.r64, fp.r64(d)) && IsFloat(fp.r32, fp.r32(d)) && IsFloat(fp.r32, Narrow(fp, fp.r64(d)))
  {
    if fp.r64(d).Finite? {
      assert Canonical(fp.r64(d).d);
    }
  }

  lemma ComponentSound(fp: Floats, tokens: seq<Token>)
    requires GoodTokens(tokens)
    ensures ParseComponent(fp, tokens).Some? ==> GoodTokens(ParseComponent(fp, tokens).value.rest)
    ensures ParseComponent(fp, tokens).Some? && Lawful(fp) ==> IsFloat(fp.r32, ParseComponent(fp, tokens).value.value.size)
  {
    hide LowerWord, Lawful, IsFloat, Narrow;
    var rest := if StartsWith(tokens, Minus) then tokens[1..] else tokens;
    if rest != [] {
      assert GoodToken(rest[0]);
      if Lawful(fp) {
        match rest[0]
        case IntLit(n) => NarrowSound(fp, Numeral(n, ""));
        case FloatLit(d) => NarrowSound(fp, d);
        case _ =>
      }
    }
  }

  lemma {:induction false} ComponentsSound(fp: Floats, done: seq<Float>, tokens: seq<Token>)
    requires GoodTokens(tokens) && (Lawful(fp) ==> PlainLiteral(fp, VectorLiteral(done)))
    ensures var r := ParseComponents(fp, done, tokens);
      r.Some? ==> r.value.value.VectorLiteral? && GoodTokens(r.value.rest) && (Lawful(fp) ==> PlainLiteral(fp, r.value.value))
    decreases |tokens|
  {
    hide ParseComponent, GoodToken, Lawful, IsFloat;
    if StartsWith(tokens, Comma) {
      ComponentSound(fp, tokens[1..]);
      if ParseComponent(fp, tokens[1..]).Some? {
        var p := ParseComponent(fp, tokens[1..]).value;
        ComponentsSound(fp, done + [p.value], p.rest);
      }
    }
  }

  lemma LiteralSound(fp: Floats, tokens: seq<Token>)
    requires GoodTokens(tokens)
    ensures var r := ParseLiteral(fp, tokens);
      r.Some? ==> GoodTokens(r.value.rest) && (r.value.value.IntLiteral? ==> LEAST < r.value.value.n <= I64_MAX)
                  && (Lawful(fp) ==> PlainLiteral(fp, r.value.value))
  {
    hide LowerWord, Lawful, IsFloat, ParseComponent, ParseComponents;
    if tokens != [] {
      assert GoodToken(tokens[0]);
      if |tokens| > 1 {
        assert GoodToken(tokens[1]);
      }
      if tokens[0] == LBracket {
        ComponentSound(fp, tokens[1..]);
        if ParseComponent(fp, tokens[1..]).Some? {
          ComponentsSound(fp, [ParseComponent(fp, tokens[1..]).value.value], ParseComponent(fp, tokens[1..]).value.rest);
        }
      } else if tokens[0].FloatLit? && Lawful(fp) {
        NarrowSound(fp, tokens[0].d);
      } else if tokens[0] == Minus && |tokens| > 1 && tokens[1].FloatLit? && Lawful(fp) {
        NarrowSound(fp, tokens[1].d);
      }
    }
  }

  // ---------------------------------------------------------------- the round trip

  lemma {:induction false} PlainIsSpelled(fp: Floats, e: Expr)
    requires Plain(fp, e) && Named(e)
    ensures Spelled(e)
  {
    hide GoodName, Canonical;
    match e
    case Compare(_, _, value) =>
    case IsNull(_, _) =>
    case Not(inner) => PlainIsSpelled(fp, inner);
    case And(a, b) => PlainIsSpelled(fp, a); PlainIsSpelled(fp, b);
    case Or(a, b) => PlainIsSpelled(fp, a); PlainIsSpelled(fp, b);
  }

  /** Main result: what the printed form of any well-named expression is parsed as. */
  lemma PrintedIsReread(fp: Floats, e: Expr)
    requires Plain(fp, e) && Named(e)
    ensures ParseText(fp, Print(e)) == Reread(fp, e)
  {
    hide Print, TokensOf, ParseExpr, Tokenize, Named, Plain, ParseNot, Spelled, Reread;
    PlainIsSpelled(fp, e);
    PrintedReads(e, "");
    assert Print(e) + "" == Print(e) && Tokenize("") == Some([]) by { LexNothing(); }
    if TokensOf(e).Some? {
      assert TokensOf(e).value + [] == TokensOf(e).value;
      TokensParse(fp, e, []);
      LoneParses(fp, TokensOf(e).value, Reread(fp, e), []);
    } else {
      Unlexed(fp, e);
    }
  }

  /**
   Main result: lexing and parsing the printed form of an expression gives that expression
   back exactly when its columns are lower-case words other than `not`, no integer is the
   least one, no REAL is whole or infinite, and every vector component is read back.
   */
  lemma RoundTripExact(fp: Floats, e: Expr)
    requires Plain(fp, e)
    ensures ParseText(fp, Print(e)) == Some(e) <==> Printable(fp, e)
  {
    hide Print, ParseText, Named, Plain, Survives, Reread;
    if Named(e) {
      PrintedIsReread(fp, e);
      RereadExact(fp, e);
    }
    ParseTextSound(fp, Print(e));
  }

  lemma LexNothing()
    ensures Tokenize("") == Some([])
  {
  }

  /** Whatever text it came from, a parsed expression has good columns and integers. */
  lemma ParseTextSound(fp: Floats, s: string)
    ensures ParseText(fp, s).Some? ==> SoundExpr(fp, ParseText(fp, s).value)
  {
    hide ParseExpr, Tokenize, SoundExpr, GoodTokens;
    LexedIsGood(s);
    if Tokenize(s).Some? {
      ExprSound(fp, Tokenize(s).value);
    }
  }

  /** For every text: printing what was parsed and parsing again changes nothing, unless a float is lost. */
  lemma ReparseStable(fp: Floats, s: string)
    requires Lawful(fp) && ParseText(fp, s).Some?
    ensures ParseText(fp, Print(ParseText(fp, s).value)) == ParseText(fp, s) <==> Survives(fp, ParseText(fp, s).value)
  {
    hide ParseText, Print, Named, Survives, Plain, Lawful;
    ParseTextSound(fp, s);
    RoundTripExact(fp, ParseText(fp, s).value);
  }

  /** Two printable expressions with the same text are the same. */
  lemma PrintInjective(fp: Floats, a: Expr, b: Expr)
    requires Printable(fp, a) && Printable(fp, b) && Plain(fp, a) && Plain(fp, b) && Print(a) == Print(b)
    ensures a == b
  {
    hide ParseText, Print, Printable, Plain;
    RoundTripExact(fp, a);
    RoundTripExact(fp, b);
  }

  // ---------------------------------------------------------------- what is lost

  /** The least 64-bit integer prints as text that does not come back. */
  lemma LeastIntegerLost(fp: Floats, column: string, op: CmpOp)
    ensures ParseText(fp, Print(Compare(column, op, IntLiteral(LEAST)))) != Some(Compare(column, op, IntLiteral(LEAST)))
  {
    hide ParseText, Print;
    RoundTripExact(fp, Compare(column, op, IntLiteral(LEAST)));
  }

  /** A column called `not` is read as the operator. */
  lemma NotColumnLost(fp: Floats, op: CmpOp, value: Literal)
    requires PlainLiteral(fp, value)
    ensures ParseText(fp, Print(Compare("not", op, value))) != Some(Compare("not", op, value))
  {
    hide ParseText, Print;
    RoundTripExact(fp, Compare("not", op, value));
  }

  /** A whole REAL up to 2^63 comes back as an integer. */
  lemma WholeRealBecomesInteger(fp: Floats, column: string, op: CmpOp, n: nat)
    requires GoodName(column) && n <= I64_MAX && IsFloat(fp.r64, Finite(Numeral(n, "")))
    ensures ParseText(fp, Print(Compare(column, op, RealLiteral(Float(false, Finite(Numeral(n, "")))))))
         == Some(Compare(column, op, IntLiteral(n)))
  {
    hide ParseText, Print;
    PrintedIsReread(fp, Compare(column, op, RealLiteral(Float(false, Finite(Numeral(n, ""))))));
  }

  /** The text `x = 2.0` is parsed as a REAL, printed as `x = 2`, and parsed again as an integer. */
  lemma WholeRealReparsed(fp: Floats)
    requires IsFloat(fp.r64, Finite(Numeral(2, "")))
    ensures var e := Compare("x", EngineData.Eq, RealLiteral(Float(false, Finite(Numeral(2, "")))));
      && ParseText(fp, "x = 2.0") == Some(e) && Print(e) == "x = 2"
      && ParseText(fp, "x = 2") == Some(Compare("x", EngineData.Eq, IntLiteral(2)))
  {
    var e := Compare("x", EngineData.Eq, RealLiteral(Float(false, Finite(Numeral(2, "")))));
    assert Decimal(2) == "2";
    assert Print(e) == "x = 2";
    PointZeroRead(fp);
    hide ParseText, Print;
    assert GoodName("x");
    WholeRealBecomesInteger(fp, "x", EngineData.Eq, 2);
  }

  lemma PointZeroLexed()
    ensures Tokenize("2.0") == Some([FloatLit(Numeral(2, ""))])
  {
    assert Decimal(2) == "2" && Trim("0") == "";
    FractionLexed(2, "0", "");
    LexNothing();
    hide Tokenize, Decimal, Trim;
    assert ("2" + ("." + "0")) + "" == "2.0";
    assert [FloatLit(Numeral(2, ""))] + [] == [FloatLit(Numeral(2, ""))];
  }

  lemma PointZeroRead(fp: Floats)
    ensures ParseText(fp, "x = 2.0") == Some(Compare("x", EngineData.Eq, RealLiteral(Float(false, fp.r64(Numeral(2, ""))))))
  {
    hide Tokenize, ParseExpr;
    PointZeroLexed();
    SpaceSkipped("2.0");
    OpLexed(EngineData.Eq, "2.0");
    var tail := "=" + (" " + "2.0");
    SpaceSkipped(tail);
    NameLexed("x", " " + tail);
    assert "x" + (" " + tail) == "x = 2.0";
    assert [Ident("x")] + ([EqTok] + [FloatLit(Numeral(2, ""))]) == [Ident("x"), EqTok, FloatLit(Numeral(2, ""))];
    PointZeroParsed(fp);
  }

  lemma PointZeroParsed(fp: Floats)
    ensures var t := [Ident("x"), EqTok, FloatLit(Numeral(2, ""))];
      ParseExpr(fp, t) == Some(Parsed(Compare("x", EngineData.Eq, RealLiteral(Float(false, fp.r64(Numeral(2, ""))))), []))
  {
    var t := [Ident("x"), EqTok, FloatLit(Numeral(2, ""))];
    var e := Compare("x", EngineData.Eq, RealLiteral(Float(false, fp.r64(Numeral(2, "")))));
    assert t[1..][0] == EqTok && t[1..][1..] == [FloatLit(Numeral(2, ""))] && [FloatLit(Numeral(2, ""))][1..] == [];
    assert ParseNot(fp, t) == Some(Parsed(e, []));
    LoneParses(fp, t, Some(e), []);
  }

  /** A vector component of 2^63 or more stops the lexer. */
  lemma LargeComponentLost(fp: Floats, column: string, op: CmpOp, v: seq<Float>, n: nat)
    requires GoodName(column) && PlainLiteral(fp, VectorLiteral(v)) && n > I64_MAX && Float(false, Finite(Numeral(n, ""))) in v
    ensures ParseText(fp, Print(Compare(column, op, VectorLiteral(v)))) != Some(Compare(column, op, VectorLiteral(v)))
  {
    hide ParseText, Print;
    var i :| 0 <= i < |v| && v[i] == Float(false, Finite(Numeral(n, "")));
    assert !ComponentSurvives(fp, v[i]);
    RoundTripExact(fp, Compare(column, op, VectorLiteral(v)));
  }
}
