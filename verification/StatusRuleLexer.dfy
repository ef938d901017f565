/** The hand-written tokenizer of the status-rule language. */
module StatusRuleLexer {
  import opened StatusRules

  // ----- character classes -----

  predicate IsSpace(c: char)
  {
    var n := c as int;
    || 9 <= n <= 13 || n == 0x20 || n == 0xA0 || n == 0x1680 || 0x2000 <= n <= 0x200A
    || n == 0x2028 || n == 0x2029 || n == 0x202F || n == 0x205F || n == 0x3000 || n == 0xFEFF
  }

  predicate IsDigit(c: char) { '0' <= c <= '9' }

  predicate IsNumeralChar(c: char) { IsDigit(c) || c == '.' }

  predicate IsNameStart(c: char) { 'a' <= c <= 'z' || 'A' <= c <= 'Z' || c == '_' }

  predicate IsNameChar(c: char) { IsNameStart(c) || IsDigit(c) }

  predicate IsNotDot(c: char) { c != '.' }

  predicate IsPathChar(c: char) { IsNameChar(c) || c == '.' }

  /** The end of the run of characters satisfying `f` that starts at `i`. */
  function SpanEnd(s: string, i: nat, f: char -> bool): (n: nat)
    requires i <= |s|
    ensures i <= n <= |s|
    decreases |s| - i
  {
    if i < |s| && f(s[i]) then SpanEnd(s, i + 1, f) else i
  }

  lemma {:induction false} SpanEndIs(s: string, i: nat, f: char -> bool, n: nat)
    requires i <= n <= |s| && (forall k :: i <= k < n ==> f(s[k])) && (n < |s| ==> !f(s[n]))
    ensures SpanEnd(s, i, f) == n
    decreases n - i
  {
    if i < n {
      SpanEndIs(s, i + 1, f, n);
    }
  }

  lemma {:induction false} SpanStops(s: string, i: nat, f: char -> bool)
    requires i <= |s|
    ensures forall k :: i <= k < SpanEnd(s, i, f) ==> f(s[k])
    ensures SpanEnd(s, i, f) < |s| ==> !f(s[SpanEnd(s, i, f)])
    decreases |s| - i
  {
    if i < |s| && f(s[i]) {
      SpanStops(s, i + 1, f);
    }
  }

  // ----- numbers and paths -----

  function Dots(s: string): nat
  {
    if s == [] then 0 else (if s[0] == '.' then 1 else 0) + Dots(s[1..])
  }

  function DigitValue(c: char): nat
  {
    if IsDigit(c) then (c - '0') as nat else 0
  }

  function WholeValue(s: string): nat
  {
    if s == [] then 0 else 10 * WholeValue(s[..|s| - 1]) + DigitValue(s[|s| - 1])
  }

  function FractionValue(s: string): real
  {
    if s == [] then 0.0 else (DigitValue(s[0]) as real + FractionValue(s[1..])) / 10.0
  }

  /** The value of a decimal numeral with at most one dot. */
  function NumeralValue(s: string): real
  {
    var k := SpanEnd(s, 0, IsNotDot);
    WholeValue(s[..k]) as real + (if k == |s| then 0.0 else FractionValue(s[k + 1..]))
  }

  function SplitDots(s: string): (parts: seq<string>)
    ensures parts != []
  {
    var k := SpanEnd(s, 0, IsNotDot);
    if k == |s| then [s] else [s[..k]] + SplitDots(s[k + 1..])
  }

  function JoinDots(parts: seq<string>): string
    requires parts != []
  {
    if |parts| == 1 then parts[0] else parts[0] + "." + JoinDots(parts[1..])
  }

  predicate IsContextRoot(s: string)
  {
    s == "metadata" || s == "telemetry" || s == "plugin" || s == "environment" || s == "bubbled_environment"
  }

  predicate IsLiteral(s: string) { s == "true" || s == "false" || s == "null" }

  function LiteralValue(s: string): Value
  {
    if s == "true" then Bool(true) else if s == "false" then Bool(false) else Null
  }

  // ----- operators -----

  function TwoCharOp(a: char, b: char): Result<Op>
  {
    if b == '=' then
      if a == '=' then Ok(Bin(Eq))
      else if a == '!' then Ok(Bin(Ne))
      else if a == '<' then Ok(Bin(Le))
      else if a == '>' then Ok(Bin(Ge))
      else SyntaxError
    else if a == '&' && b == '&' then Ok(Bin(And))
    else if a == '|' && b == '|' then Ok(Bin(Or))
    else SyntaxError
  }

  function OneCharOp(a: char): Result<Op>
  {
    if a == '<' then Ok(Bin(Lt))
    else if a == '>' then Ok(Bin(Gt))
    else if a == '!' then Ok(Not)
    else SyntaxError
  }

  // ----- the scanner as a function of text and position -----

  function Unescape(c: char): char
  {
    if c == 'n' then '\n' else if c == 't' then '\t' else c
  }

  /** What was read, and where the scanner stands afterwards. */
  datatype Scanned<T> = Scanned(item: T, end: nat)

  function Push(c: char, r: Result<Scanned<string>>): Result<Scanned<string>>
  {
    match r
    case SyntaxError => SyntaxError
    case Ok(x) => Ok(Scanned([c] + x.item, x.end))
  }

  /** The body of a string literal from `j`, up to and including the closing quote. */
  function LexQuoted(s: string, j: nat, quote: char): (r: Result<Scanned<string>>)
    ensures r.Ok? ==> j < r.value.end <= |s|
    decreases |s| - j
  {
    if j >= |s| then SyntaxError
    else if s[j] == quote then Ok(Scanned("", j + 1))
    else if s[j] == '\\' then
      if j + 1 >= |s| then SyntaxError
      else Push(Unescape(s[j + 1]), LexQuoted(s, j + 2, quote))
    else Push(s[j], LexQuoted(s, j + 1, quote))
  }

  function LexNumeral(numeral: string): Result<Token>
  {
    if Dots(numeral) > 1 then SyntaxError else Ok(Leaf(Number(NumeralValue(numeral))))
  }

  predicate BadPath(ident: string)
  {
    || (ident != "" && (ident[0] == '.' || ident[|ident| - 1] == '.'))
    || HasDoubleDot(ident)
  }

  predicate HasDoubleDot(s: string) { exists k :: 0 <= k < |s| - 1 && s[k] == '.' && s[k + 1] == '.' }

  function LexWord(ident: string): Result<Token>
  {
    if BadPath(ident) then SyntaxError
    else if IsLiteral(ident) then Ok(Leaf(Literal(LiteralValue(ident))))
    else if !IsContextRoot(SplitDots(ident)[0]) then SyntaxError
    else Ok(Leaf(Path(SplitDots(ident))))
  }

  function EndingAt(r: Result<Token>, end: nat): Result<Scanned<Token>>
  {
    match r
    case SyntaxError => SyntaxError
    case Ok(t) => Ok(Scanned(t, end))
  }

  predicate StartsNumeral(s: string, i: nat)
    requires i < |s|
  {
    IsDigit(s[i]) || (s[i] == '.' && i + 1 < |s| && IsDigit(s[i + 1]))
  }

  /** The token that starts at `i`. */
  function LexOne(s: string, i: nat): (r: Result<Scanned<Token>>)
    requires i < |s|
    ensures r.Ok? ==> i < r.value.end <= |s|
  {
    var c := s[i];
    if c == '(' then Ok(Scanned(Open, i + 1))
    else if c == ')' then Ok(Scanned(Close, i + 1))
    else if i + 1 < |s| && TwoCharOp(c, s[i + 1]).Ok? then Ok(Scanned(Operator(TwoCharOp(c, s[i + 1]).value), i + 2))
    else if OneCharOp(c).Ok? then Ok(Scanned(Operator(OneCharOp(c).value), i + 1))
    else if c == '\"' || c == '\'' then
      (match LexQuoted(s, i + 1, c)
       case SyntaxError => SyntaxError
       case Ok(x) => Ok(Scanned(Leaf(Text(x.item)), x.end)))
    else if StartsNumeral(s, i) then
      var end := SpanEnd(s, i, IsNumeralChar);
      EndingAt(LexNumeral(s[i..end]), end)
    else if IsNameStart(c) then
      var end := SpanEnd(s, i, IsPathChar);
      EndingAt(LexWord(s[i..end]), end)
    else SyntaxError
  }

  function Prepend(tokens: seq<Token>, r: Result<seq<Token>>): Result<seq<Token>>
  {
    match r
    case SyntaxError => SyntaxError
    case Ok(ts) => Ok(tokens + ts)
  }

  function LexFrom(s: string, i: nat): Result<seq<Token>>
    requires i <= |s|
    decreases |s| - i
  {
    if i == |s| then Ok([])
    else if IsSpace(s[i]) then LexFrom(s, i + 1)
    else
      match LexOne(s, i)
      case SyntaxError => SyntaxError
      case Ok(x) => Prepend([x.item], LexFrom(s, x.end))
  }

  /** What the scanner computes; `Tokenize` is the scanner as the nest of loops it is. */
  function Lex(s: string): Result<seq<Token>>
  {
    LexFrom(s, 0)
  }

  // ----- the scanner as the loops it is -----

  method Tokenize(expr: string) returns (r: Result<seq<Token>>)
    ensures r == Lex(expr)
  {
    var tokens: seq<Token> := [];
    var i := 0;
    PrependNothing(LexFrom(expr, 0));
    while i < |expr|
      invariant 0 <= i <= |expr|
      invariant Lex(expr) == Prepend(tokens, LexFrom(expr, i))
    {
      if IsSpace(expr[i]) {
        i := i + 1;
        continue;
      }
      var step := ScanToken(expr, i);
      if step == SyntaxError { return SyntaxError; }
      PrependPrepend(tokens, [step.value.item], LexFrom(expr, step.value.end));
      tokens := tokens + [step.value.item];
      i := step.value.end;
    }
    assert tokens + [] == tokens;
    return Ok(tokens);
  }

  /** One turn of the scanner. */
  method ScanToken(expr: string, i: nat) returns (r: Result<Scanned<Token>>)
    requires i < |expr| && !IsSpace(expr[i])
    ensures r == LexOne(expr, i)
  {
    var ch := expr[i];
    if ch == '(' { return Ok(Scanned(Open, i + 1)); }
    if ch == ')' { return Ok(Scanned(Close, i + 1)); }
    if i + 1 < |expr| {
      var two := TwoCharOp(ch, expr[i + 1]);
      if two.Ok? { return Ok(Scanned(Operator(two.value), i + 2)); }
    }
    var one := OneCharOp(ch);
    if one.Ok? { return Ok(Scanned(Operator(one.value), i + 1)); }
    if ch == '\"' || ch == '\'' {
      var quoted := ScanQuoted(expr, i + 1, ch);
      match quoted {
        case SyntaxError => return SyntaxError;
        case Ok(x) => return Ok(Scanned(Leaf(Text(x.item)), x.end));
      }
    }
    if StartsNumeral(expr, i) {
      var j := ScanSpan(expr, i, IsNumeralChar);
      return EndingAt(LexNumeral(expr[i..j]), j);
    }
    if IsNameStart(ch) {
      var j := ScanSpan(expr, i, IsPathChar);
      return EndingAt(LexWord(expr[i..j]), j);
    }
    return SyntaxError;
  }

  method ScanSpan(expr: string, i: nat, f: char -> bool) returns (j: nat)
    requires i <= |expr|
    ensures j == SpanEnd(expr, i, f)
  {
    j := i;
    while j < |expr| && f(expr[j])
      invariant i <= j <= |expr|
      invariant SpanEnd(expr, i, f) == SpanEnd(expr, j, f)
    {
      j := j + 1;
    }
  }

  method ScanQuoted(expr: string, start: nat, quote: char) returns (r: Result<Scanned<string>>)
    requires start <= |expr|
    ensures r == LexQuoted(expr, start, quote)
  {
    var j := start;
    var val := "";
    PushAllNothing(LexQuoted(expr, start, quote));
    while j < |expr|
      invariant start <= j <= |expr|
      invariant LexQuoted(expr, start, quote) == PushAll(val, LexQuoted(expr, j, quote))
    {
      var c := expr[j];
      if c == quote {
        assert val + "" == val;
        return Ok(Scanned(val, j + 1));
      }
      if c == '\\' {
        j := j + 1;
        if j >= |expr| { return SyntaxError; }
        c := Unescape(expr[j]);
      }
      PushAllSnoc(val, c, LexQuoted(expr, j + 1, quote));
      val := val + [c];
      j := j + 1;
    }
    return SyntaxError;
  }

  function PushAll(text: string, r: Result<Scanned<string>>): Result<Scanned<string>>
  {
    match r
    case SyntaxError => SyntaxError
    case Ok(x) => Ok(Scanned(text + x.item, x.end))
  }

  lemma PushAllNothing(r: Result<Scanned<string>>)
    ensures PushAll("", r) == r
  {
    if r.Ok? {
      assert "" + r.value.item == r.value.item;
    }
  }

  lemma PushAllSnoc(text: string, c: char, r: Result<Scanned<string>>)
    ensures PushAll(text, Push(c, r)) == PushAll(text + [c], r)
  {
    if r.Ok? {
      assert text + ([c] + r.value.item) == text + [c] + r.value.item;
    }
  }

  lemma PrependNothing(r: Result<seq<Token>>)
    ensures Prepend([], r) == r
  {
    if r.Ok? {
      assert [] + r.value == r.value;
    }
  }

  lemma PrependPrepend(a: seq<Token>, b: seq<Token>, r: Result<seq<Token>>)
    ensures Prepend(a, Prepend(b, r)) == Prepend(a + b, r)
  {
    if r.Ok? {
      assert a + (b + r.value) == a + b + r.value;
    }
  }

  // ----- lexemes: every way to spell a token -----

  /** A character of a string literal, written as itself or behind a backslash. */
  datatype Quotable = Raw(c: char) | Escaped(c: char)

  datatype Lexeme =
    | Word(parts: seq<string>)
    | Keyword(name: string)
    | Numeral(digits: string)
    | Quoted(quote: char, body: seq<Quotable>)
    | Symbol(op: Op)
    | LeftParen
    | RightParen

  predicate IsName(s: string)
  {
    s != "" && forall k :: 0 <= k < |s| ==> IsNameChar(s[k])
  }

  predicate ValidPath(parts: seq<string>)
  {
    parts != [] && IsContextRoot(parts[0]) && forall k :: 0 <= k < |parts| ==> IsName(parts[k])
  }

  predicate ValidBody(quote: char, body: seq<Quotable>)
  {
    && (quote == '\"' || quote == '\'')
    && (forall k :: 0 <= k < |body| && body[k].Raw? ==> body[k].c != quote && body[k].c != '\\')
  }

  predicate ValidLexeme(l: Lexeme)
  {
    match l
    case Word(parts) =>
      ValidPath(parts)
    case Keyword(name) => IsLiteral(name)
    case Numeral(digits) =>
      && digits != "" && (forall k :: 0 <= k < |digits| ==> IsNumeralChar(digits[k])) && Dots(digits) <= 1
      && (IsDigit(digits[0]) || (|digits| > 1 && IsDigit(digits[1])))
    case Quoted(quote, body) =>
      ValidBody(quote, body)
    case _ => true
  }

  function SpellBody(body: seq<Quotable>): string
  {
    if body == [] then ""
    else (match body[0]
          case Raw(c) => [c]
          case Escaped(c) => ['\\', c]) + SpellBody(body[1..])
  }

  function ReadBody(body: seq<Quotable>): string
  {
    if body == [] then ""
    else [match body[0]
          case Raw(c) => c
          case Escaped(c) => Unescape(c)] + ReadBody(body[1..])
  }

  function SpellOp(op: Op): (s: string)
    ensures 1 <= |s| <= 2
  {
    match op
    case Not => "!"
    case Bin(Lt) => "<"
    case Bin(Le) => "<="
    case Bin(Gt) => ">"
    case Bin(Ge) => ">="
    case Bin(Eq) => "=="
    case Bin(Ne) => "!="
    case Bin(And) => "&&"
    case Bin(Or) => "||"
  }

  function Spell(l: Lexeme): string
    requires ValidLexeme(l)
  {
    match l
    case Word(parts) => JoinDots(parts)
    case Keyword(name) => name
    case Numeral(digits) => digits
    case Quoted(quote, body) => [quote] + SpellBody(body) + [quote]
    case Symbol(op) => SpellOp(op)
    case LeftParen => "("
    case RightParen => ")"
  }

  function TokenOf(l: Lexeme): Token
  {
    match l
    case Word(parts) => Leaf(Path(parts))
    case Keyword(name) => Leaf(Literal(LiteralValue(name)))
    case Numeral(digits) => Leaf(Number(NumeralValue(digits)))
    case Quoted(_, body) => Leaf(Text(ReadBody(body)))
    case Symbol(op) => Operator(op)
    case LeftParen => Open
    case RightParen => Close
  }

  /** May the text go on with `rest` directly after `l`? */
  predicate MayPrecede(l: Lexeme, rest: string)
  {
    rest == "" ||
    match l
    case Word(_) => !IsPathChar(rest[0])
    case Keyword(_) => !IsPathChar(rest[0])
    case Numeral(_) => !IsNumeralChar(rest[0])
    case Symbol(op) => |SpellOp(op)| == 1 ==> rest[0] != '='
    case _ => true
  }
}
