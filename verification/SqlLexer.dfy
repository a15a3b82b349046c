/** The tokenizer of the SQL dialect, on characters. */
module SqlLexer {
  import opened Wrappers

  /** An unsigned decimal number: its whole part, and the digits after the point without trailing zeros. */
  datatype Numeral = Numeral(whole: nat, fraction: string)

  /** Keywords are identifiers; a float literal is the decimal number that was written. */
  datatype Token =
    | Ident(name: string)
    | IntLit(n: nat)
    | FloatLit(d: Numeral)
    | Str(s: string)
    | Comma | LBracket | RBracket | LParen | RParen | Star | Semi | Minus
    | EqTok | NeTok | LtTok | GtTok | LeTok | GeTok

  const I64_MAX: nat := 0x7fff_ffff_ffff_ffff

  predicate IsSpace(c: char) {
    c == ' ' || c == '\t' || c == '\r' || c == '\n'
  }

  predicate IsDigit(c: char) {
    '0' <= c <= '9'
  }

  predicate IsLower(c: char) {
    'a' <= c <= 'z'
  }

  predicate IsUpper(c: char) {
    'A' <= c <= 'Z'
  }

  predicate IsWordStart(c: char) {
    IsLower(c) || IsUpper(c) || c == '_'
  }

  predicate IsWordChar(c: char) {
    IsWordStart(c) || IsDigit(c)
  }

  function Lower(c: char): char {
    if IsUpper(c) then c - 'A' + 'a' else c
  }

  function LowerAll(s: string): (r: string)
    ensures |r| == |s|
  {
    seq(|s|, i requires 0 <= i < |s| => Lower(s[i]))
  }

  // ---------------------------------------------------------------- spans

  function WordLength(s: string): (n: nat)
    ensures n <= |s|
  {
    if s != "" && IsWordChar(s[0]) then 1 + WordLength(s[1..]) else 0
  }

  function DigitsLength(s: string): (n: nat)
    ensures n <= |s|
  {
    if s != "" && IsDigit(s[0]) then 1 + DigitsLength(s[1..]) else 0
  }

  function LineLength(s: string): (n: nat)
    ensures n <= |s|
  {
    if s != "" && s[0] != '\n' then 1 + LineLength(s[1..]) else 0
  }

  function DigitValue(c: char): (n: nat)
    requires IsDigit(c)
    ensures n < 10
  {
    (c as int) - ('0' as int)
  }

  /** The number a string of digits stands for. */
  function NumberOf(s: string): nat
    requires forall i :: 0 <= i < |s| ==> IsDigit(s[i])
  {
    if s == "" then 0 else 10 * NumberOf(s[..|s| - 1]) + DigitValue(s[|s| - 1])
  }

  /** The digits without trailing zeros. */
  function Trim(s: string): (r: string)
    ensures r <= s && (r != "" ==> r[|r| - 1] != '0')
  {
    if s != "" && s[|s| - 1] == '0' then Trim(s[..|s| - 1]) else s
  }

  lemma {:induction false} SpanIsDigits(s: string)
    ensures forall i :: 0 <= i < DigitsLength(s) ==> IsDigit(s[i])
  {
    if s != "" && IsDigit(s[0]) {
      SpanIsDigits(s[1..]);
    }
  }

  /** The contents of a string literal after its opening quote, and how many characters it takes. */
  datatype Quoted = Quoted(s: string, used: nat)

  function LexQuoted(s: string): (r: Option<Quoted>)
    ensures r.Some? ==> 1 <= r.value.used <= |s|
    decreases |s|
  {
    if s == "" then None
    else if s[0] != '\'' then
      match LexQuoted(s[1..])
      case None => None
      case Some(q) => Some(Quoted([s[0]] + q.s, q.used + 1))
    else if |s| > 1 && s[1] == '\'' then
      match LexQuoted(s[2..])
      case None => None
      case Some(q) => Some(Quoted("'" + q.s, q.used + 2))
    else Some(Quoted("", 1))
  }

  // ---------------------------------------------------------------- one token

  /** A token, or none for space and comments, and the characters it takes. */
  datatype Lexeme = Lexeme(token: Option<Token>, used: nat)

  function One(t: Token): Lexeme {
    Lexeme(Some(t), 1)
  }

  /** A float literal whose point is at n. */
  function LexFloat(s: string, n: nat): (r: Lexeme)
    requires n < |s| && forall i :: 0 <= i < n ==> IsDigit(s[..n][i])
    ensures 1 <= r.used <= |s|
  {
    var m := n + 1 + DigitsLength(s[n + 1..]);
    Lexeme(Some(FloatLit(Numeral(NumberOf(s[..n]), Trim(s[n + 1..m])))), m)
  }

  function LexNumber(s: string): (r: Option<Lexeme>)
    requires s != "" && IsDigit(s[0])
    ensures r.Some? ==> 1 <= r.value.used <= |s|
  {
    var n := DigitsLength(s);
    SpanIsDigits(s);
    if n + 1 < |s| && s[n] == '.' && IsDigit(s[n + 1]) then Some(LexFloat(s, n))
    else if NumberOf(s[..n]) > I64_MAX then None
    else Some(Lexeme(Some(IntLit(NumberOf(s[..n]))), n))
  }

  function LexOne(s: string): (r: Option<Lexeme>)
    requires s != ""
    ensures r.Some? ==> 1 <= r.value.used <= |s|
  {
    var c := s[0];
    if IsSpace(c) then Some(Lexeme(None, 1))
    else if c == '-' && |s| > 1 && s[1] == '-' then Some(Lexeme(None, LineLength(s)))
    else if c == ',' then Some(One(Comma))
    else if c == '[' then Some(One(LBracket))
    else if c == ']' then Some(One(RBracket))
    else if c == '(' then Some(One(LParen))
    else if c == ')' then Some(One(RParen))
    else if c == '*' then Some(One(Star))
    else if c == ';' then Some(One(Semi))
    else if c == '-' then Some(One(Minus))
    else if c == '=' then Some(One(EqTok))
    else if c == '!' then if |s| > 1 && s[1] == '=' then Some(Lexeme(Some(NeTok), 2)) else None
    else if c == '<' then
      if |s| > 1 && s[1] == '=' then Some(Lexeme(Some(LeTok), 2))
      else if |s| > 1 && s[1] == '>' then Some(Lexeme(Some(NeTok), 2))
      else Some(One(LtTok))
    else if c == '>' then if |s| > 1 && s[1] == '=' then Some(Lexeme(Some(GeTok), 2)) else Some(One(GtTok))
    else if c == '\'' then
      match LexQuoted(s[1..])
      case None => None
      case Some(q) => Some(Lexeme(Some(Str(q.s)), q.used + 1))
    else if IsDigit(c) then LexNumber(s)
    else if IsWordStart(c) then Some(Lexeme(Some(Ident(LowerAll(s[..WordLength(s)]))), WordLength(s)))
    else None
  }

  function Tokenize(s: string): Option<seq<Token>>
    decreases |s|
  {
    if s == "" then Some([])
    else
      match LexOne(s)
      case None => None
      case Some(l) =>
        match Tokenize(s[l.used..])
        case None => None
        case Some(rest) => Some(if l.token.Some? then [l.token.value] + rest else rest)
  }

  // ---------------------------------------------------------------- the loops

  method ScanWord(s: string, from: nat) returns (i: nat)
    requires from <= |s|
    ensures i == from + WordLength(s[from..])
  {
    i := from;
    while i < |s| && IsWordChar(s[i])
      invariant from <= i <= |s| && from + WordLength(s[from..]) == i + WordLength(s[i..])
    {
      assert s[i..][1..] == s[i + 1..];
      i := i + 1;
    }
  }

  method ScanDigits(s: string, from: nat) returns (i: nat)
    requires from <= |s|
    ensures i == from + DigitsLength(s[from..])
  {
    i := from;
    while i < |s| && IsDigit(s[i])
      invariant from <= i <= |s| && from + DigitsLength(s[from..]) == i + DigitsLength(s[i..])
    {
      assert s[i..][1..] == s[i + 1..];
      i := i + 1;
    }
  }

  method SkipLine(s: string, from: nat) returns (i: nat)
    requires from <= |s|
    ensures i == from + LineLength(s[from..])
  {
    i := from;
    while i < |s| && s[i] != '\n'
      invariant from <= i <= |s| && from + LineLength(s[from..]) == i + LineLength(s[i..])
    {
      assert s[i..][1..] == s[i + 1..];
      i := i + 1;
    }
  }

  /** The string literal whose opening quote is just before `from`. */
  method ScanQuoted(s: string, from: nat) returns (r: Option<Quoted>)
    requires from <= |s|
    ensures r == LexQuoted(s[from..])
  {
    var out, i := "", from;
    MoveNothing(LexQuoted(s[from..]));
    while true
      invariant from <= i <= |s|
      invariant LexQuoted(s[from..]) == match LexQuoted(s[i..])
        case None => None
        case Some(q) => Some(Quoted(out + q.s, i - from + q.used))
      decreases |s| - i
    {
      if i == |s| {
        return None;
      }
      if s[i] != '\'' {
        assert s[i..][1..] == s[i + 1..];
        MoveChar(out, s[i], LexQuoted(s[i + 1..]));
        out, i := out + [s[i]], i + 1;
      } else if i + 1 < |s| && s[i + 1] == '\'' {
        assert s[i..][2..] == s[i + 2..];
        MoveChar(out, '\'', LexQuoted(s[i + 2..]));
        out, i := out + "'", i + 2;
      } else {
        assert out + "" == out;
        return Some(Quoted(out, i - from + 1));
      }
    }
  }

  lemma MoveNothing(q: Option<Quoted>)
    ensures q.Some? ==> Quoted("" + q.value.s, q.value.used) == q.value
  {
    if q.Some? {
      assert "" + q.value.s == q.value.s;
    }
  }

  lemma MoveChar(out: string, c: char, q: Option<Quoted>)
    ensures q.Some? ==> out + ([c] + q.value.s) == (out + [c]) + q.value.s
  {
  }

  /** One round of the scanning loop. */
  method ScanOne(s: string, i: nat) returns (r: Option<Lexeme>)
    requires i < |s|
    ensures r == LexOne(s[i..])
  {
    hide WordLength, DigitsLength, LineLength, LexQuoted, NumberOf, LowerAll;
    var c := s[i];
    var t := s[i..];
    if c == '-' && i + 1 < |s| && s[i + 1] == '-' {
      var j := SkipLine(s, i);
      r := Some(Lexeme(None, j - i));
    } else if c == '\'' {
      assert t[1..] == s[i + 1..];
      var q := ScanQuoted(s, i + 1);
      r := if q.None? then None else Some(Lexeme(Some(Str(q.value.s)), q.value.used + 1));
    } else if IsDigit(c) {
      r := ScanNumber(s, i);
    } else if IsWordStart(c) {
      var j := ScanWord(s, i);
      assert s[i..j] == t[..j - i];
      r := Some(Lexeme(Some(Ident(LowerAll(s[i..j]))), j - i));
    } else {
      r := LexOne(t);
    }
  }

  method ScanNumber(s: string, i: nat) returns (r: Option<Lexeme>)
    requires i < |s| && IsDigit(s[i])
    ensures r == LexNumber(s[i..])
  {
    hide DigitsLength, NumberOf, Trim;
    var t := s[i..];
    var j := ScanDigits(s, i);
    SpanIsDigits(t);
    assert s[i..j] == t[..j - i];
    if j + 1 < |s| && s[j] == '.' && IsDigit(s[j + 1]) {
      assert t[j - i + 1..] == s[j + 1..];
      var k := ScanDigits(s, j + 1);
      assert s[j + 1..k] == t[j - i + 1..k - i];
      r := Some(Lexeme(Some(FloatLit(Numeral(NumberOf(s[i..j]), Trim(s[j + 1..k])))), k - i));
    } else if NumberOf(s[i..j]) > I64_MAX {
      r := None;
    } else {
      r := Some(Lexeme(Some(IntLit(NumberOf(s[i..j]))), j - i));
    }
  }

  method TokenizeLoop(s: string) returns (r: Option<seq<Token>>)
    ensures r == Tokenize(s)
  {
    hide LexOne;
    var tokens: seq<Token> := [];
    var i := 0;
    assert s[0..] == s;
    assert forall rest: seq<Token> :: tokens + rest == rest;
    while i < |s|
      invariant 0 <= i <= |s|
      invariant Tokenize(s) == match Tokenize(s[i..]) case None => None case Some(rest) => Some(tokens + rest)
      decreases |s| - i
    {
      var l := ScanOne(s, i);
      if l.None? {
        return None;
      }
      assert s[i..][l.value.used..] == s[i + l.value.used..];
      if l.value.token.Some? {
        MoveToken(tokens, l.value.token.value, Tokenize(s[i + l.value.used..]));
        tokens := tokens + [l.value.token.value];
      }
      i := i + l.value.used;
    }
    assert s[i..] == "" && tokens + [] == tokens;
    r := Some(tokens);
  }

  lemma MoveToken(tokens: seq<Token>, t: Token, rest: Option<seq<Token>>)
    ensures rest.Some? ==> tokens + ([t] + rest.value) == (tokens + [t]) + rest.value
  {
  }
}
