/** The rule language as its authors are told it is. Nothing here goes by the evaluator's tables. */
module StatusRuleLanguage {
  import opened StatusRules
  import opened StatusRuleLexer
  import opened StatusRuleGrammar
  import opened StatusRuleText

  // ----- the grammar, layer by layer -----

  datatype Tree =
    | Basic(word: Lexeme)
    | Parens(t: Tree)
    | Bang(t: Tree)
    | Infix(l: Tree, sym: string, r: Tree)

  const RELATIONS: set<string> := {"<", "<=", ">", ">="}
  const EQUALITIES: set<string> := {"==", "!="}
  const SYMBOLS: set<string> := {"<", "<=", ">", ">=", "==", "!=", "&&", "||"}

  predicate IsOr(t: Tree)
    decreases t, 5
  {
    IsAnd(t) || (t.Infix? && t.sym == "||" && IsOr(t.l) && IsAnd(t.r))
  }

  predicate IsAnd(t: Tree)
    decreases t, 4
  {
    IsEquality(t) || (t.Infix? && t.sym == "&&" && IsAnd(t.l) && IsEquality(t.r))
  }

  predicate IsEquality(t: Tree)
    decreases t, 3
  {
    IsRelation(t) || (t.Infix? && t.sym in EQUALITIES && IsEquality(t.l) && IsRelation(t.r))
  }

  predicate IsRelation(t: Tree)
    decreases t, 2
  {
    IsUnary(t) || (t.Infix? && t.sym in RELATIONS && IsRelation(t.l) && IsUnary(t.r))
  }

  predicate IsUnary(t: Tree)
    decreases t, 1
  {
    match t
    case Basic(l) => IsOperand(l)
    case Parens(a) => IsOr(a)
    case Bang(a) => IsUnary(a)
    case Infix(_, _, _) => false
  }

  // ----- words and their values -----

  const ROOTS: set<string> := {"metadata", "telemetry", "plugin", "environment", "bubbled_environment"}
  const CONSTANTS: map<string, Value> := map["true" := Bool(true), "false" := Bool(false), "null" := Null]

  predicate IsCipher(c: char) { 48 <= c as int <= 57 }

  predicate IsLetter(c: char) { 65 <= c as int <= 90 || 97 <= c as int <= 122 || c as int == 95 }

  predicate IsStep(s: string) { s != "" && forall k :: 0 <= k < |s| ==> IsLetter(s[k]) || IsCipher(s[k]) }

  /** Digits with at most one dot among them, and a digit at one of the first two places. */
  predicate IsDecimal(s: string)
  {
    && s != "" && (IsCipher(s[0]) || (|s| > 1 && s[0] == '.' && IsCipher(s[1])))
    && (forall j :: 0 <= j < |s| ==> IsCipher(s[j]) || s[j] == '.')
    && (forall i, j :: 0 <= i < j < |s| && s[i] == '.' ==> s[j] != '.')
  }

  predicate IsOperand(l: Lexeme)
  {
    match l
    case Word(parts) => parts != [] && parts[0] in ROOTS && forall k :: 0 <= k < |parts| ==> IsStep(parts[k])
    case Keyword(name) => name in CONSTANTS
    case Numeral(digits) => IsDecimal(digits)
    case Quoted(quote, body) =>
      && quote as int in {34, 39}
      && forall k :: 0 <= k < |body| && body[k].Raw? ==> body[k].c != quote && body[k].c as int != 92
    case _ => false
  }

  /** What a dotted path leads to, seen from its last step. */
  function At(context: Value, parts: seq<string>): Value
  {
    if parts == [] then context
    else
      var owner, name := At(context, parts[..|parts| - 1]), parts[|parts| - 1];
      if owner.Obj? && name in owner.props then owner.props[name] else Undefined
  }

  function Digits(s: string): int
  {
    if s == "" then 0 else 10 * Digits(s[..|s| - 1]) + (s[|s| - 1] as int - 48)
  }

  function Ten(n: nat): (t: nat)
    ensures t > 0
  {
    if n == 0 then 1 else 10 * Ten(n - 1)
  }

  /** The place of the dot, or the end. */
  function DotAt(s: string, k: nat): (r: nat)
    requires k <= |s|
    ensures k <= r <= |s| && (r < |s| ==> s[r] == '.') && forall j :: k <= j < r ==> s[j] != '.'
    decreases |s| - k
  {
    if k == |s| || s[k] == '.' then k else DotAt(s, k + 1)
  }

  /** All the digits, as a number, over ten for each of those behind the dot. */
  function Decimal(s: string): real
  {
    var k := DotAt(s, 0);
    if k == |s| then Digits(s) as real else Digits(s[..k] + s[k + 1..]) as real / Ten(|s| - k - 1) as real
  }

  function Meant(q: Quotable): char
  {
    if q.Raw? then q.c else if q.c == 'n' then 10 as char else if q.c == 't' then 9 as char else q.c
  }

  function WordValue(l: Lexeme, context: Value): Value
  {
    match l
    case Word(parts) => At(context, parts)
    case Keyword(name) => if name in CONSTANTS then CONSTANTS[name] else Undefined
    case Numeral(digits) => Num(Decimal(digits))
    case Quoted(_, body) => Str(seq(|body|, k requires 0 <= k < |body| => Meant(body[k])))
    case _ => Undefined
  }

  // ----- the value of a tree -----

  predicate Falsy(v: Value) { v in {Undefined, Null, Bool(false), Num(0.0), NaN, Str("")} }

  predicate Compares(sym: string, a: Value, b: Value, cmp: Comparisons)
  {
    || (sym == "==" && cmp.eq(a, b)) || (sym == "!=" && !cmp.eq(a, b))
    || (sym == "<" && cmp.lt(a, b)) || (sym == "<=" && cmp.le(a, b))
    || (sym == ">" && cmp.gt(a, b)) || (sym == ">=" && cmp.ge(a, b))
  }

  /** `&&` gives its left operand if that is falsy, `||` if it is not; else the right one. */
  function Combined(sym: string, a: Value, b: Value, cmp: Comparisons): Value
  {
    if sym == "&&" then (if Falsy(a) then a else b)
    else if sym == "||" then (if Falsy(a) then b else a)
    else Bool(Compares(sym, a, b, cmp))
  }

  function ValueOf(t: Tree, context: Value, cmp: Comparisons): Value
  {
    match t
    case Basic(l) => WordValue(l, context)
    case Parens(a) => ValueOf(a, context, cmp)
    case Bang(a) => Bool(Falsy(ValueOf(a, context, cmp)))
    case Infix(l, sym, r) => Combined(sym, ValueOf(l, context, cmp), ValueOf(r, context, cmp), cmp)
  }

  // ----- words agree with the tokenizer's -----

  lemma OperandIff(l: Lexeme)
    ensures IsOperand(l) <==> ValidLexeme(l) && (l.Word? || l.Keyword? || l.Numeral? || l.Quoted?)
  {
    match l
    case Word(parts) => forall k | 0 <= k < |parts| ensures IsStep(parts[k]) <==> IsName(parts[k]) { }
    case Numeral(digits) => DecimalIff(digits);
    case _ =>
  }

  lemma {:induction false} DotsAre(s: string, k: nat)
    requires k <= |s| && forall j :: 0 <= j < |s| ==> IsCipher(s[j]) || s[j] == '.'
    ensures Dots(s[k..]) <= 1 <==> forall i, j :: k <= i < j < |s| && s[i] == '.' ==> s[j] != '.'
    ensures Dots(s[k..]) == 0 <==> forall j :: k <= j < |s| ==> s[j] != '.'
    decreases |s| - k
  {
    if k < |s| {
      DotsAre(s, k + 1);
      assert s[k..][0] == s[k] && s[k..][1..] == s[k + 1..];
    }
  }

  lemma DecimalIff(s: string)
    ensures IsDecimal(s) <==> ValidLexeme(Numeral(s))
  {
    if forall j :: 0 <= j < |s| ==> IsCipher(s[j]) || s[j] == '.' {
      DotsAre(s, 0);
      assert s[0..] == s;
    }
  }

  lemma {:induction false} PathIsAt(context: Value, parts: seq<string>)
    ensures ResolvePath(context, parts) == At(context, parts)
    decreases |parts|
  {
    if |parts| == 1 {
      assert parts[..0] == [] && parts[1..] == [];
    } else if parts != [] {
      PathIsAt(context, parts[..|parts| - 1]);
      ResolveLast(context, parts);
    }
  }

  lemma {:induction false} ResolveLast(context: Value, parts: seq<string>)
    requires parts != []
    ensures var owner, name := ResolvePath(context, parts[..|parts| - 1]), parts[|parts| - 1];
      ResolvePath(context, parts) == if owner.Obj? && name in owner.props then owner.props[name] else Undefined
    decreases |parts|
  {
    var init := parts[..|parts| - 1];
    if |parts| == 1 {
      assert init == [] && parts[1..] == [];
    } else if context.Obj? && parts[0] in context.props {
      ResolveLast(context.props[parts[0]], parts[1..]);
      assert init[0] == parts[0] && init[1..] == parts[1..][..|parts| - 2];
      assert parts[1..][|parts| - 2] == parts[|parts| - 1];
    } else {
      assert init[0] == parts[0];
    }
  }

  lemma {:induction false} WholeIsDigits(s: string)
    requires forall j :: 0 <= j < |s| ==> IsCipher(s[j])
    ensures WholeValue(s) == Digits(s) >= 0
    decreases |s|
  {
    if s != "" {
      WholeIsDigits(s[..|s| - 1]);
    }
  }

  lemma {:induction false} DigitsConcat(a: string, b: string)
    ensures Digits(a + b) == Scaled(Digits(a), Ten(|b|), Digits(b))
    decreases |b|
  {
    if b == "" {
      assert a + b == a;
    } else {
      var init, last := b[..|b| - 1], b[|b| - 1] as int - 48;
      DigitsConcat(a, init);
      assert (a + b)[..|a + b| - 1] == a + init;
      TimesTen(Digits(a), Ten(|init|), Digits(init), last);
    }
  }

  lemma TimesTen(a: int, t: int, b: int, d: int)
    ensures 10 * Scaled(a, t, b) + d == Scaled(a, 10 * t, 10 * b + d)
  {
  }

  /** `f` is `n` over `t`. */
  ghost predicate IsRatio(f: real, n: int, t: int)
  {
    t > 0 && f * t as real == n as real
  }

  lemma {:induction false} FractionIsDigits(s: string)
    requires forall j :: 0 <= j < |s| ==> IsCipher(s[j])
    ensures IsRatio(FractionValue(s), Digits(s), Ten(|s|))
    decreases |s|
  {
    if s != "" {
      FractionIsDigits(s[1..]);
      FirstDigit(s);
      OverTen(DigitValue(s[0]), FractionValue(s[1..]), Digits(s[1..]), Ten(|s[1..]|));
    }
  }

  lemma FirstDigit(s: string)
    requires s != "" && IsCipher(s[0])
    ensures Digits(s) == Scaled(DigitValue(s[0]), Ten(|s[1..]|), Digits(s[1..]))
  {
    DigitsConcat([s[0]], s[1..]);
    assert s == [s[0]] + s[1..] && [s[0]][..0] == "";
    assert Digits([s[0]]) == DigitValue(s[0]);
  }

  function Scaled(d: int, t: int, n: int): int { d * t + n }

  lemma OverTen(d: int, f: real, n: int, t: int)
    requires IsRatio(f, n, t)
    ensures IsRatio((d as real + f) / 10.0, Scaled(d, t, n), 10 * t)
  {
    var x, y := d as real, t as real;
    assert (10 * t) as real == 10.0 * y && (d * t) as real == x * y;
    assert (x + f) / 10.0 * (10.0 * y) == (x + f) * y == x * y + f * y;
  }

  lemma NumeralIsDecimal(s: string)
    requires IsDecimal(s)
    ensures NumeralValue(s) == Decimal(s)
  {
    var k := DotAt(s, 0);
    SpanEndIs(s, 0, IsNotDot, k);
    WholeIsDigits(s[..k]);
    if k == |s| {
      assert s[..k] == s;
    } else {
      DottedIsDecimal(s[..k], s[k + 1..]);
    }
  }

  lemma DottedIsDecimal(whole: string, fraction: string)
    requires forall j :: 0 <= j < |whole| ==> IsCipher(whole[j])
    requires forall j :: 0 <= j < |fraction| ==> IsCipher(fraction[j])
    ensures WholeValue(whole) as real + FractionValue(fraction)
         == Digits(whole + fraction) as real / Ten(|fraction|) as real
  {
    WholeIsDigits(whole);
    FractionIsDigits(fraction);
    DigitsConcat(whole, fraction);
    Shifted(WholeValue(whole), FractionValue(fraction), Digits(fraction), Ten(|fraction|));
  }

  lemma Shifted(w: int, f: real, d: int, t: int)
    requires IsRatio(f, d, t)
    ensures w as real + f == Scaled(w, t, d) as real / t as real
  {
    assert (w * t + d) as real == w as real * t as real + f * t as real == (w as real + f) * t as real;
  }

  lemma {:induction false} BodyIsMeant(body: seq<Quotable>)
    ensures ReadBody(body) == seq(|body|, k requires 0 <= k < |body| => Meant(body[k]))
    decreases |body|
  {
    if body != [] {
      BodyIsMeant(body[1..]);
    }
  }

  lemma WordHasValue(l: Lexeme, context: Value)
    requires IsOperand(l)
    ensures TokenOf(l).Leaf? && OperandValue(TokenOf(l).operand, context) == WordValue(l, context)
  {
    match l
    case Word(parts) => PathIsAt(context, parts);
    case Keyword(_) =>
    case Numeral(digits) => NumeralIsDecimal(digits);
    case Quoted(_, body) => BodyIsMeant(body);
  }

  // ----- trees are the expressions printed without parentheses of the printer's own -----

  function SymbolOf(sym: string): Op
  {
    if sym == "<" then Bin(Lt) else if sym == "<=" then Bin(Le) else if sym == ">" then Bin(Gt)
    else if sym == ">=" then Bin(Ge) else if sym == "==" then Bin(Eq) else if sym == "!=" then Bin(Ne)
    else if sym == "&&" then Bin(And) else if sym == "||" then Bin(Or)
    else Not
  }

  lemma SymbolIsSpelled(sym: string)
    requires sym in SYMBOLS
    ensures SymbolOf(sym).Bin? && Spell(Symbol(SymbolOf(sym))) == sym
  {
  }

  lemma SpelledIsSymbol(op: Binary)
    ensures SpellOp(Bin(op)) in SYMBOLS && SymbolOf(SpellOp(Bin(op))) == Bin(op)
  {
  }

  /** The words of a tree, in order. */
  function Lexemes(t: Tree): seq<Lexeme>
  {
    match t
    case Basic(l) => [l]
    case Parens(a) => [LeftParen] + Lexemes(a) + [RightParen]
    case Bang(a) => [Symbol(Not)] + Lexemes(a)
    case Infix(l, sym, r) => Lexemes(l) + [Symbol(SymbolOf(sym))] + Lexemes(r)
  }

  function TokensIn(ls: seq<Lexeme>): seq<Token>
  {
    seq(|ls|, k requires 0 <= k < |ls| => TokenOf(ls[k]))
  }

  predicate InLayer(t: Tree, p: nat)
  {
    if p <= 1 then IsOr(t) else if p == 2 then IsAnd(t) else if p == 3 then IsEquality(t)
    else if p == 4 then IsRelation(t) else IsUnary(t)
  }

  function ExprOf(t: Tree): Expr
  {
    match t
    case Basic(l) => if TokenOf(l).Leaf? then Atom(TokenOf(l).operand) else Atom(Literal(Undefined))
    case Parens(a) => Group(ExprOf(a))
    case Bang(a) => Negate(ExprOf(a))
    case Infix(l, sym, r) =>
      Binop(if SymbolOf(sym).Bin? then SymbolOf(sym).op else Or, ExprOf(l), ExprOf(r))
  }

  lemma Layers(t: Tree)
    ensures IsOr(t) <==> IsAnd(t) || (t.Infix? && t.sym == "||" && IsOr(t.l) && IsAnd(t.r))
    ensures IsAnd(t) <==> IsEquality(t) || (t.Infix? && t.sym == "&&" && IsAnd(t.l) && IsEquality(t.r))
    ensures IsEquality(t) <==> IsRelation(t) || (t.Infix? && t.sym in EQUALITIES && IsEquality(t.l) && IsRelation(t.r))
    ensures IsRelation(t) <==> IsUnary(t) || (t.Infix? && t.sym in RELATIONS && IsRelation(t.l) && IsUnary(t.r))
    ensures t.Infix? ==> !IsUnary(t)
  {
  }

  /** The layers are the levels of precedence. */
  lemma LayerIs(t: Tree, p: nat)
    requires 1 <= p <= 5 && InLayer(t, p)
    ensures match t
      case Basic(l) => IsOperand(l)
      case Parens(a) => InLayer(a, 1)
      case Bang(a) => InLayer(a, 5)
      case Infix(l, sym, r) =>
        sym in SYMBOLS && ExprOf(t).Binop? && SymbolOf(sym) == Bin(ExprOf(t).op)
        && var q := BinaryPrecedence(ExprOf(t).op); p <= q && InLayer(l, q) && InLayer(r, q + 1)
  {
    Layers(t);
  }

  lemma TokensOfThree(a: seq<Lexeme>, l: Lexeme, b: seq<Lexeme>)
    ensures TokensIn(a + [l] + b) == TokensIn(a) + [TokenOf(l)] + TokensIn(b)
  {
  }

  lemma TokensOfParens(a: seq<Lexeme>)
    ensures TokensIn([LeftParen] + a + [RightParen]) == [Open] + TokensIn(a) + [Close]
  {
  }

  lemma {:induction false} TreeIsPlain(t: Tree, p: nat)
    requires 1 <= p <= 5 && InLayer(t, p)
    ensures Plain(ExprOf(t), p) && Print(ExprOf(t), p) == TokensIn(Lexemes(t))
    decreases t
  {
    LayerIs(t, p);
    match t
    case Basic(l) => OperandIff(l);
    case Parens(a) =>
      TreeIsPlain(a, 1);
      TokensOfParens(Lexemes(a));
    case Bang(a) =>
      TreeIsPlain(a, 5);
      TokensOfThree([], Symbol(Not), Lexemes(a));
      assert [] + [Symbol(Not)] + Lexemes(a) == Lexemes(t);
    case Infix(l, sym, r) =>
      var op := ExprOf(t).op;
      TokensOfThree(Lexemes(l), Symbol(SymbolOf(sym)), Lexemes(r));
      TreeIsPlain(l, BinaryPrecedence(op));
      TreeIsPlain(r, BinaryPrecedence(op) + 1);
      PrintBinop(op, ExprOf(l), ExprOf(r), p);
  }

  lemma {:induction false} TreeMeans(t: Tree, p: nat, context: Value, cmp: Comparisons)
    requires 1 <= p <= 5 && InLayer(t, p)
    ensures Meaning(ExprOf(t), context, cmp) == ValueOf(t, context, cmp)
    decreases t
  {
    LayerIs(t, p);
    match t
    case Basic(l) => WordHasValue(l, context);
    case Parens(a) => TreeMeans(a, 1, context, cmp);
    case Bang(a) =>
      TreeMeans(a, 5, context, cmp);
      TruthIff(ValueOf(a, context, cmp));
    case Infix(l, sym, r) =>
      var q := BinaryPrecedence(ExprOf(t).op);
      TreeMeans(l, q, context, cmp);
      TreeMeans(r, q + 1, context, cmp);
      CombinedIs(sym, ValueOf(l, context, cmp), ValueOf(r, context, cmp), cmp);
  }

  lemma TruthIff(v: Value)
    ensures Truthy(v) <==> !Falsy(v)
  {
  }

  lemma CombinedIs(sym: string, a: Value, b: Value, cmp: Comparisons)
    requires sym in SYMBOLS && SymbolOf(sym).Bin?
    ensures ApplyBinary(SymbolOf(sym).op, a, b, cmp) == Combined(sym, a, b, cmp)
  {
    TruthIff(a);
    var op := SymbolOf(sym).op;
    SymbolIsSpelled(sym);
    assert sym == SpellOp(Bin(op));
    CombinedBySymbol(op, a, b, cmp);
  }

  lemma CombinedBySymbol(op: Binary, a: Value, b: Value, cmp: Comparisons)
    ensures ApplyBinary(op, a, b, cmp) == Combined(SpellOp(Bin(op)), a, b, cmp)
  {
    TruthIff(a);
    if op == And {
      assert SpellOp(Bin(op)) == "&&";
    } else if op == Or {
      assert SpellOp(Bin(op))[0] == '|';
    } else {
      ComparesBySymbol(op, a, b, cmp);
    }
  }

  lemma ComparesBySymbol(op: Binary, a: Value, b: Value, cmp: Comparisons)
    requires op != And && op != Or
    ensures var sym := SpellOp(Bin(op));
      sym[0] != '&' && sym[0] != '|' && ApplyBinary(op, a, b, cmp) == Bool(Compares(sym, a, b, cmp))
  {
    var sym := SpellOp(Bin(op));
    match op
    case Lt => assert |sym| == 1 && sym[0] == '<';
    case Gt => assert |sym| == 1 && sym[0] == '>';
    case Le => assert |sym| == 2 && sym[0] == '<';
    case Ge => assert |sym| == 2 && sym[0] == '>';
    case Eq => assert |sym| == 2 && sym[0] == '=';
    case Ne => assert |sym| == 2 && sym[0] == '!';
  }

  /** Conversely, words that an expression prints as are those of a tree. */
  lemma {:induction false} PlainIsTree(e: Expr, p: nat, ls: seq<Lexeme>) returns (t: Tree)
    requires 1 <= p <= 5 && Plain(e, p) && TokensIn(ls) == Print(e, p)
    requires forall l :: l in ls ==> ValidLexeme(l)
    ensures InLayer(t, p) && Lexemes(t) == ls
    decreases e
  {
    match e
    case Atom(o) =>
      assert |ls| == 1 && TokenOf(ls[0]) == TokensIn(ls)[0] == Leaf(o) && ls[0] in ls;
      OperandIff(ls[0]);
      t := Basic(ls[0]);
      UnaryInLayer(t, p);
    case Negate(a) =>
      AfterNot(ls, Print(a, 5));
      var inner := PlainIsTree(a, 5, ls[1..]);
      t := Bang(inner);
      UnaryInLayer(t, p);
    case Group(a) =>
      InsideParens(ls, Print(a, 1));
      var inner := PlainIsTree(a, 1, ls[1..|ls| - 1]);
      t := Parens(inner);
      UnaryInLayer(t, p);
    case Binop(op, l, r) =>
      t := PlainBinopIsTree(op, l, r, p, ls);
  }

  lemma {:induction false} PlainBinopIsTree(op: Binary, l: Expr, r: Expr, p: nat, ls: seq<Lexeme>) returns (t: Tree)
    requires 1 <= p <= 5 && Plain(Binop(op, l, r), p) && TokensIn(ls) == Print(Binop(op, l, r), p)
    requires forall x :: x in ls ==> ValidLexeme(x)
    ensures InLayer(t, p) && Lexemes(t) == ls
    decreases Binop(op, l, r), 0
  {
    var q := BinaryPrecedence(op);
    var n := |Print(l, q)|;
    PrintBinop(op, l, r, p);
    AroundSymbol(op, ls, Print(l, q), Print(r, q + 1));
    var left := PlainIsTree(l, q, ls[..n]);
    var right := PlainIsTree(r, q + 1, ls[n + 1..]);
    t := Infix(left, SpellOp(Bin(op)), right);
    SpelledIsSymbol(op);
    InfixInLayer(op, left, right, p);
  }

  lemma AroundSymbol(op: Binary, ls: seq<Lexeme>, left: seq<Token>, right: seq<Token>)
    requires TokensIn(ls) == left + [Operator(Bin(op))] + right
    ensures var n := |left|;
      && n < |ls| && ls == ls[..n] + [Symbol(Bin(op))] + ls[n + 1..]
      && TokensIn(ls[..n]) == left && TokensIn(ls[n + 1..]) == right
  {
    var n := |left|;
    assert |ls| == n + 1 + |right| && TokenOf(ls[n]) == TokensIn(ls)[n];
    assert TokensIn(ls[..n]) == TokensIn(ls)[..n] == left;
    assert TokensIn(ls[n + 1..]) == TokensIn(ls)[n + 1..] == right;
  }

  lemma AfterNot(ls: seq<Lexeme>, ts: seq<Token>)
    requires TokensIn(ls) == [Operator(Not)] + ts
    ensures ls != [] && ls == [Symbol(Not)] + ls[1..] && TokensIn(ls[1..]) == ts
  {
    assert |ls| == 1 + |ts| && TokenOf(ls[0]) == TokensIn(ls)[0];
    assert TokensIn(ls[1..]) == TokensIn(ls)[1..] == ts;
  }

  lemma InsideParens(ls: seq<Lexeme>, ts: seq<Token>)
    requires TokensIn(ls) == [Open] + ts + [Close]
    ensures |ls| >= 2 && ls == [LeftParen] + ls[1..|ls| - 1] + [RightParen] && TokensIn(ls[1..|ls| - 1]) == ts
  {
    var n := |ls| - 1;
    assert |ls| == 2 + |ts| && TokenOf(ls[0]) == TokensIn(ls)[0] && TokenOf(ls[n]) == TokensIn(ls)[n];
    assert TokensIn(ls[1..n]) == TokensIn(ls)[1..n] == ts;
  }

  lemma InfixInLayer(op: Binary, l: Tree, r: Tree, p: nat)
    requires 1 <= p <= BinaryPrecedence(op) && InLayer(l, BinaryPrecedence(op)) && InLayer(r, BinaryPrecedence(op) + 1)
    ensures InLayer(Infix(l, SpellOp(Bin(op)), r), p)
  {
    Layers(Infix(l, SpellOp(Bin(op)), r));
  }

  lemma UnaryInLayer(t: Tree, p: nat)
    requires IsUnary(t)
    ensures InLayer(t, p)
  {
    Layers(t);
  }

  // ----- texts -----

  function LexemesOf(ps: seq<Piece>): seq<Lexeme>
  {
    seq(|ps|, k requires 0 <= k < |ps| => ps[k].lexeme)
  }

  /** The text has the words of the tree, with blanks between them where it likes and where it must. */
  ghost predicate Writes(text: string, t: Tree)
  {
    exists lead, ps :: SpellsAs(text, lead, ps) && LexemesOf(ps) == Lexemes(t)
  }

  lemma {:induction false} TokensOfPieces(ps: seq<Piece>)
    ensures TokensOf(ps) == TokensIn(LexemesOf(ps))
    decreases |ps|
  {
    if ps != [] {
      TokensOfPieces(ps[1..]);
      assert LexemesOf(ps) == [ps[0].lexeme] + LexemesOf(ps[1..]);
    }
  }

  /** What a text of the language evaluates to. */
  lemma WrittenHasValue(text: string, t: Tree, context: Value, cmp: Comparisons)
    requires IsOr(t) && Writes(text, t)
    ensures Condition(text, context, cmp) == Ok(ValueOf(t, context, cmp))
  {
    var lead, ps :| SpellsAs(text, lead, ps) && LexemesOf(ps) == Lexemes(t);
    TokensOfPieces(ps);
    TreeIsPlain(t, 1);
    TreeMeans(t, 1, context, cmp);
    assert SpellsTokens(text, Print(ExprOf(t), 1));
    TextHasMeaning(text, ExprOf(t), context, cmp);
  }

  /** And every accepted text without juxtaposed operands is blank or a text of the language. */
  lemma AcceptedIsWritten(text: string, tokens: seq<Token>, context: Value, cmp: Comparisons) returns (t: Tree)
    requires Lex(text) == Ok(tokens) && tokens != [] && !Juxtaposes(tokens) && Condition(text, context, cmp).Ok?
    ensures IsOr(t) && Writes(text, t)
  {
    LexIffSpelled(text, tokens);
    var lead, ps :| SpellsAs(text, lead, ps) && TokensOf(ps) == tokens;
    AcceptedIffPrinted(tokens, context, cmp);
    AlternatesIffPrinted(tokens);
    var e, rest := ParseExpr(tokens, 0);
    assert rest == [] && Print(e, 1) + rest == Print(e, 1);
    TokensOfPieces(ps);
    forall l | l in LexemesOf(ps)
      ensures ValidLexeme(l)
    {
      var k :| 0 <= k < |ps| && LexemesOf(ps)[k] == l;
      assert ps[k] in ps;
    }
    t := PlainIsTree(e, 1, LexemesOf(ps));
  }

  // ----- putting texts together -----

  function Enclosed(text: string): (e: string)
    ensures e != "" && e[0] == '('
  {
    "(" + text + ")"
  }

  function Linked(l: string, sym: string, r: string): string
  {
    Enclosed(l) + sym + Enclosed(r)
  }

  /** A text of the language, and what it evaluates to. */
  ghost predicate Says(text: string, t: Tree)
  {
    IsOr(t) && Writes(text, t)
  }

  lemma ValidConcat(ps: seq<Piece>, qs: seq<Piece>)
    ensures ValidPieces(ps + qs) <==> ValidPieces(ps) && ValidPieces(qs)
  {
    assert forall p :: p in ps + qs <==> p in ps || p in qs;
  }

  lemma FourParts(a: string, b: string, c: string, d: string)
    ensures a + (b + (c + d)) == a + (b + c) + d == (a + b) + (c + d)
  {
  }

  lemma RenderCons(ps: seq<Piece>, qs: seq<Piece>)
    requires ps != [] && ValidPieces(ps) && ValidPieces(qs)
    ensures (ps + qs)[0] == ps[0] && (ps + qs)[1..] == ps[1..] + qs
    ensures ValidPieces(ps + qs) && ValidPieces(ps[1..] + qs)
    ensures Render(ps + qs) == Spell(ps[0].lexeme) + (ps[0].gap + Render(ps[1..] + qs))
    ensures Render(ps) == Spell(ps[0].lexeme) + (ps[0].gap + Render(ps[1..]))
  {
    ValidConcat(ps, qs);
    ValidConcat(ps[1..], qs);
    assert (ps + qs)[1..] == ps[1..] + qs;
  }

  lemma {:induction false} RenderConcat(ps: seq<Piece>, qs: seq<Piece>)
    requires ValidPieces(ps) && ValidPieces(qs)
    ensures ValidPieces(ps + qs) && Render(ps + qs) == Render(ps) + Render(qs)
    decreases |ps|
  {
    if ps == [] {
      assert ps + qs == qs && Render(ps) == "";
    } else {
      RenderConcat(ps[1..], qs);
      RenderCons(ps, qs);
      FourParts(Spell(ps[0].lexeme), ps[0].gap, Render(ps[1..]), Render(qs));
    }
  }

  /** After the last piece the text may go on with `y`. */
  predicate MayGoOn(ps: seq<Piece>, y: string)
  {
    ps != [] ==> MayPrecede(ps[|ps| - 1].lexeme, ps[|ps| - 1].gap + y)
  }

  lemma TailGoesOn(ps: seq<Piece>, y: string)
    requires ps != [] && ValidPieces(ps) && WellSpaced(ps) && MayGoOn(ps, y)
    ensures ValidPieces(ps[1..]) && WellSpaced(ps[1..]) && MayGoOn(ps[1..], y)
    ensures ValidLexeme(ps[0].lexeme) && AllSpace(ps[0].gap)
  {
    assert ps[0] in ps;
  }

  lemma {:induction false} SpacedConcat(ps: seq<Piece>, qs: seq<Piece>, y: string)
    requires ValidPieces(ps) && ValidPieces(qs) && WellSpaced(ps) && WellSpaced(qs)
    requires y == Render(qs) && MayGoOn(ps, y)
    ensures ValidPieces(ps + qs) && WellSpaced(ps + qs)
    decreases |ps|
  {
    if ps == [] {
      assert ps + qs == qs;
    } else {
      TailGoesOn(ps, y);
      SpacedConcat(ps[1..], qs, y);
      SpacedCons(ps, qs);
    }
  }

  lemma SpacedCons(ps: seq<Piece>, qs: seq<Piece>)
    requires ps != [] && ValidPieces(ps) && ValidPieces(qs) && WellSpaced(ps) && MayGoOn(ps, Render(qs))
    requires ValidPieces(ps[1..] + qs) && WellSpaced(ps[1..] + qs)
    ensures ValidPieces(ps + qs) && WellSpaced(ps + qs)
  {
    RenderCons(ps, qs);
    FirstSpaced(ps, qs);
  }

  lemma FirstSpaced(ps: seq<Piece>, qs: seq<Piece>)
    requires ps != [] && ValidPieces(ps) && ValidPieces(qs) && WellSpaced(ps)
    requires MayGoOn(ps, Render(qs))
    ensures ValidPieces(ps[1..] + qs) && MayPrecede(ps[0].lexeme, ps[0].gap + Render(ps[1..] + qs))
  {
    var tail := ps[1..];
    RenderConcat(tail, qs);
    if tail == [] {
      assert tail + qs == qs;
    } else {
      RenderedIsSome(tail);
      MoreAfter(ps[0].lexeme, ps[0].gap + Render(tail), Render(qs));
      FourParts("", ps[0].gap, Render(tail), Render(qs));
    }
  }

  lemma RenderedIsSome(ps: seq<Piece>)
    requires ps != [] && ValidPieces(ps)
    ensures Render(ps) != ""
  {
    SpelledIsSome(ps[0].lexeme);
  }

  lemma SpelledIsSome(l: Lexeme)
    requires ValidLexeme(l)
    ensures Spell(l) != ""
  {
    if l.Word? {
      JoinIsPathText(l.parts);
    }
  }

  lemma MoreAfter(l: Lexeme, rest: string, more: string)
    requires MayPrecede(l, rest) && rest != ""
    ensures MayPrecede(l, rest + more)
  {
    assert (rest + more)[0] == rest[0];
  }

  lemma LexemesConcat(ps: seq<Piece>, qs: seq<Piece>)
    ensures LexemesOf(ps + qs) == LexemesOf(ps) + LexemesOf(qs)
  {
  }

  lemma BeforeClose(l: Lexeme, gap: string)
    requires AllSpace(gap)
    ensures MayPrecede(l, gap + ")")
  {
    if gap != "" {
      GapSeparates(l, gap, ")");
    }
  }

  lemma OnePiece(l: Lexeme, gap: string)
    requires ValidLexeme(l) && AllSpace(gap)
    ensures ValidPieces([Piece(l, gap)]) && WellSpaced([Piece(l, gap)])
    ensures Render([Piece(l, gap)]) == Spell(l) + gap && LexemesOf([Piece(l, gap)]) == [l]
  {
    var ps := [Piece(l, gap)];
    assert ps[1..] == [] && gap + "" == gap;
    if gap != "" {
      GapSeparates(l, gap, "");
    }
  }

  /** The text, from its first character on, is these pieces. */
  ghost predicate IsPieces(text: string, ps: seq<Piece>, ls: seq<Lexeme>)
  {
    ValidPieces(ps) && WellSpaced(ps) && text == Render(ps) && LexemesOf(ps) == ls
  }

  lemma PiecesConcat(x: string, ps: seq<Piece>, ls: seq<Lexeme>, y: string, qs: seq<Piece>, ms: seq<Lexeme>)
    requires IsPieces(x, ps, ls) && IsPieces(y, qs, ms)
    requires MayGoOn(ps, y)
    ensures IsPieces(x + y, ps + qs, ls + ms)
  {
    SpacedConcat(ps, qs, y);
    RenderConcat(ps, qs);
    LexemesConcat(ps, qs);
  }

  lemma PrefixPieces(l: Lexeme, gap: string, y: string, qs: seq<Piece>, ms: seq<Lexeme>)
    requires ValidLexeme(l) && AllSpace(gap) && IsPieces(y, qs, ms) && MayPrecede(l, gap + y)
    ensures IsPieces(Spell(l) + gap + y, [Piece(l, gap)] + qs, [l] + ms)
  {
    OnePiece(l, gap);
    PiecesConcat(Spell(l) + gap, [Piece(l, gap)], [l], y, qs, ms);
  }

  lemma SuffixClose(x: string, ps: seq<Piece>, ls: seq<Lexeme>)
    requires IsPieces(x, ps, ls)
    ensures IsPieces(x + ")", ps + [Piece(RightParen, "")], ls + [RightParen])
  {
    OnePiece(RightParen, "");
    assert Spell(RightParen) + "" == ")";
    if ps != [] {
      assert ps[|ps| - 1] in ps;
      BeforeClose(ps[|ps| - 1].lexeme, ps[|ps| - 1].gap);
    }
    PiecesConcat(x, ps, ls, ")", [Piece(RightParen, "")], [RightParen]);
  }

  lemma ParensPieces(text: string, t: Tree) returns (ps: seq<Piece>)
    requires Writes(text, t)
    ensures IsPieces(Enclosed(text), ps, Lexemes(Parens(t))) && ps != [] && ps[|ps| - 1] == Piece(RightParen, "")
  {
    var lead: string, qs: seq<Piece> :| SpellsAs(text, lead, qs) && LexemesOf(qs) == Lexemes(t);
    SuffixClose(Render(qs), qs, Lexemes(t));
    PrefixPieces(LeftParen, lead, Render(qs) + ")", qs + [Piece(RightParen, "")], Lexemes(t) + [RightParen]);
    ps := [Piece(LeftParen, lead)] + (qs + [Piece(RightParen, "")]);
    FourParts("(", lead, Render(qs), ")");
    assert [LeftParen] + (Lexemes(t) + [RightParen]) == Lexemes(Parens(t));
  }

  lemma PiecesSay(text: string, ps: seq<Piece>, t: Tree)
    requires IsPieces(text, ps, Lexemes(t)) && IsOr(t)
    ensures Says(text, t)
  {
    assert text == "" + Render(ps) && AllSpace("");
    assert SpellsAs(text, "", ps);
  }

  lemma ParensSay(text: string, t: Tree)
    requires Says(text, t)
    ensures Says(Enclosed(text), Parens(t))
  {
    var ps := ParensPieces(text, t);
    UnaryInLayer(Parens(t), 1);
    PiecesSay(Enclosed(text), ps, Parens(t));
  }

  lemma BangSays(text: string, t: Tree)
    requires Says(text, t)
    ensures Says("!" + Enclosed(text), Bang(Parens(t)))
  {
    var ps := ParensPieces(text, t);
    NotBefore(Enclosed(text), ps, Lexemes(Parens(t)));
    UnaryInLayer(Bang(Parens(t)), 1);
    PiecesSay("!" + Enclosed(text), [Piece(Symbol(Not), "")] + ps, Bang(Parens(t)));
  }

  lemma NotBefore(y: string, qs: seq<Piece>, ms: seq<Lexeme>)
    requires IsPieces(y, qs, ms) && y != "" && y[0] == '('
    ensures IsPieces("!" + y, [Piece(Symbol(Not), "")] + qs, [Symbol(Not)] + ms)
  {
    assert "" + y == y;
    PrefixPieces(Symbol(Not), "", y, qs, ms);
    assert "!" + "" + y == "!" + y;
  }

  lemma InfixSays(l: string, tl: Tree, sym: string, r: string, tr: Tree)
    requires Says(l, tl) && Says(r, tr) && sym in SYMBOLS
    ensures Says(Linked(l, sym, r), Infix(Parens(tl), sym, Parens(tr)))
  {
    var left := ParensPieces(l, tl);
    var right := ParensPieces(r, tr);
    var op := Symbol(SymbolOf(sym));
    SymbolBefore(sym, Enclosed(r), right, Lexemes(Parens(tr)));
    MayPrecedeClosed(left, sym + Enclosed(r));
    PiecesConcat(Enclosed(l), left, Lexemes(Parens(tl)),
                 sym + Enclosed(r), [Piece(op, "")] + right, [op] + Lexemes(Parens(tr)));
    InfixLexemes(tl, sym, tr);
    ParensInfix(tl, sym, tr);
    StatusRuleText.SeqAssoc(Enclosed(l), sym, Enclosed(r));
    PiecesSay(Linked(l, sym, r), left + ([Piece(op, "")] + right), Infix(Parens(tl), sym, Parens(tr)));
  }

  lemma MayPrecedeClosed(ps: seq<Piece>, y: string)
    requires ps != [] && ps[|ps| - 1] == Piece(RightParen, "")
    ensures MayGoOn(ps, y)
  {
  }

  lemma InfixLexemes(tl: Tree, sym: string, tr: Tree)
    ensures Lexemes(Parens(tl)) + ([Symbol(SymbolOf(sym))] + Lexemes(Parens(tr)))
         == Lexemes(Infix(Parens(tl), sym, Parens(tr)))
  {
    var x, y := Lexemes(Parens(tl)), Lexemes(Parens(tr));
    assert x + ([Symbol(SymbolOf(sym))] + y) == x + [Symbol(SymbolOf(sym))] + y;
  }

  lemma SymbolBefore(sym: string, y: string, qs: seq<Piece>, ms: seq<Lexeme>)
    requires sym in SYMBOLS && IsPieces(y, qs, ms) && y != "" && y[0] == '('
    ensures IsPieces(sym + y, [Piece(Symbol(SymbolOf(sym)), "")] + qs, [Symbol(SymbolOf(sym))] + ms)
  {
    var op := Symbol(SymbolOf(sym));
    SymbolIsSpelled(sym);
    assert "" + y == y;
    PrefixPieces(op, "", y, qs, ms);
    assert Spell(op) + "" + y == sym + y;
  }

  lemma ParensInfix(tl: Tree, sym: string, tr: Tree)
    requires IsOr(tl) && IsOr(tr) && sym in SYMBOLS
    ensures IsOr(Infix(Parens(tl), sym, Parens(tr)))
  {
    var t := Infix(Parens(tl), sym, Parens(tr));
    UnaryInLayer(Parens(tl), 1);
    Layers(Parens(tl));
    Layers(Parens(tr));
    Layers(t);
  }

  /** How the value of a text comes from those of its parts: for any two texts of the language and any symbol. */
  lemma PartsDecide(l: string, sym: string, r: string, context: Value, cmp: Comparisons)
    requires sym in SYMBOLS && (exists t :: Says(l, t)) && (exists t :: Says(r, t))
    ensures var a, b := Condition(l, context, cmp), Condition(r, context, cmp);
      && a.Ok? && b.Ok?
      && Condition(Linked(l, sym, r), context, cmp) == Ok(Combined(sym, a.value, b.value, cmp))
  {
    var tl :| Says(l, tl);
    var tr :| Says(r, tr);
    WrittenHasValue(l, tl, context, cmp);
    WrittenHasValue(r, tr, context, cmp);
    LinkedHasValue(l, tl, sym, r, tr, context, cmp);
  }

  lemma LinkedHasValue(l: string, tl: Tree, sym: string, r: string, tr: Tree, context: Value, cmp: Comparisons)
    requires Says(l, tl) && Says(r, tr) && sym in SYMBOLS
    ensures Condition(Linked(l, sym, r), context, cmp)
         == Ok(Combined(sym, ValueOf(tl, context, cmp), ValueOf(tr, context, cmp), cmp))
  {
    InfixSays(l, tl, sym, r, tr);
    WrittenHasValue(Linked(l, sym, r), Infix(Parens(tl), sym, Parens(tr)), context, cmp);
    assert ValueOf(Parens(tl), context, cmp) == ValueOf(tl, context, cmp);
    assert ValueOf(Parens(tr), context, cmp) == ValueOf(tr, context, cmp);
  }

  lemma PartDecides(l: string, context: Value, cmp: Comparisons)
    requires exists t :: Says(l, t)
    ensures var a := Condition(l, context, cmp);
      && a.Ok? && Condition(Enclosed(l), context, cmp) == a
      && Condition("!" + Enclosed(l), context, cmp) == Ok(Bool(Falsy(a.value)))
  {
    var t :| Says(l, t);
    ParensSay(l, t);
    BangSays(l, t);
    WrittenHasValue(l, t, context, cmp);
    WrittenHasValue(Enclosed(l), Parens(t), context, cmp);
    WrittenHasValue("!" + Enclosed(l), Bang(Parens(t)), context, cmp);
  }

  /** `&&` holds when both parts do, and gives the left one exactly when that does not. */
  lemma Conjunction(l: string, r: string, context: Value, cmp: Comparisons)
    requires (exists t :: Says(l, t)) && (exists t :: Says(r, t))
    ensures var a, b := Condition(l, context, cmp), Condition(r, context, cmp);
      var both := Condition(Linked(l, "&&", r), context, cmp);
      && a.Ok? && b.Ok? && both.Ok? && (!Falsy(both.value) <==> !Falsy(a.value) && !Falsy(b.value))
      && both == if Falsy(a.value) then a else b
  {
    PartsDecide(l, "&&", r, context, cmp);
  }

  /** `||` holds when one part does, and gives the left one exactly when that does. */
  lemma Disjunction(l: string, r: string, context: Value, cmp: Comparisons)
    requires (exists t :: Says(l, t)) && (exists t :: Says(r, t))
    ensures var a, b := Condition(l, context, cmp), Condition(r, context, cmp);
      var either := Condition(Linked(l, "||", r), context, cmp);
      && a.Ok? && b.Ok? && either.Ok? && (!Falsy(either.value) <==> !Falsy(a.value) || !Falsy(b.value))
      && either == if Falsy(a.value) then b else a
  {
    PartsDecide(l, "||", r, context, cmp);
  }

  // ----- the program -----

  const BLANKS: set<int> := {9, 10, 11, 12, 13, 32, 160, 5760, 8192, 8193, 8194, 8195, 8196, 8197, 8198, 8199, 8200,
                             8201, 8202, 8232, 8233, 8239, 8287, 12288, 65279}

  lemma BlankIff(c: char)
    ensures IsSpace(c) <==> c as int in BLANKS
  {
  }

  /** A condition that is a text of the language has the value of its tree; without juxtaposed operands nothing else is
      accepted but a blank text, which is false. */
  method EvaluateCondition(expression: string, context: Value, cmp: Comparisons) returns (r: Result<Value>)
    ensures r == Condition(expression, context, cmp)
    ensures forall t :: Says(expression, t) ==> r == Ok(ValueOf(t, context, cmp))
    ensures r.Ok? && !Juxtaposes(Lex(expression).value) ==>
      (exists t :: Says(expression, t)) || (r == Ok(Bool(false)) && forall c :: c in expression ==> c as int in BLANKS)
  {
    var tokens := Tokenize(expression);
    match tokens {
      case SyntaxError => r := SyntaxError;
      case Ok(ts) => r := EvaluateTokens(ts, context, cmp);
    }
    forall t | Says(expression, t)
      ensures r == Ok(ValueOf(t, context, cmp))
    {
      WrittenHasValue(expression, t, context, cmp);
    }
    if r.Ok? && !Juxtaposes(tokens.value) {
      NothingElse(expression, tokens.value, context, cmp);
    }
  }

  lemma NothingElse(text: string, tokens: seq<Token>, context: Value, cmp: Comparisons)
    requires Lex(text) == Ok(tokens) && !Juxtaposes(tokens) && Condition(text, context, cmp).Ok?
    ensures (exists t :: Says(text, t))
      || (Condition(text, context, cmp) == Ok(Bool(false)) && forall c :: c in text ==> c as int in BLANKS)
  {
    if tokens == [] {
      AcceptedTextHasMeaning(text, tokens, context, cmp);
      forall c | c in text
        ensures c as int in BLANKS
      {
        BlankIff(c);
      }
    } else {
      var t := AcceptedIsWritten(text, tokens, context, cmp);
      assert Says(text, t);
    }
  }
}
