/** The tokenizer characterized by the texts that spell token lists, and the meaning of a
    condition read directly off its text.
  */
module StatusRuleText {
  import opened StatusRules
  import opened StatusRuleLexer
  import opened StatusRuleGrammar

  // A word `w` stands in a text `pre + w + rest` at position `|pre|`. The lemmas about what the
  // scanner finds there keep `pre` and `rest` explicit, so that no text is ever sliced.

  lemma Assoc3(a: string, b: string, c: string, d: string)
    ensures a + (b + c) + d == a + b + (c + d) == (a + b) + c + d
  {
  }

  // ----- string literals -----

  lemma {:induction false} LexQuotedSpelled(quote: char, body: seq<Quotable>, pre: string, rest: string)
    requires ValidBody(quote, body)
    ensures LexQuoted(pre + SpellBody(body) + ([quote] + rest), |pre|, quote)
         == Ok(Scanned(ReadBody(body), |pre| + |SpellBody(body)| + 1))
    decreases |body|
  {
    var s := pre + SpellBody(body) + ([quote] + rest);
    if body == [] {
      assert s[|pre|] == quote;
    } else {
      var first, more := SpellBody(body[..1]), SpellBody(body[1..]);
      SpellFirst(body);
      Assoc3(pre, first, more, [quote] + rest);
      LexQuotedSpelled(quote, body[1..], pre + first, rest);
      QuotedStep(s, pre, first, more + ([quote] + rest), body[0], quote);
    }
  }

  lemma QuotedStep(s: string, pre: string, first: string, tail: string, q: Quotable, quote: char)
    requires s == pre + first + tail && quote != '\\' && (q.Raw? ==> q.c != quote && q.c != '\\')
    requires first == (if q.Raw? then [q.c] else ['\\', q.c])
    ensures LexQuoted(s, |pre|, quote)
         == Push(if q.Raw? then q.c else Unescape(q.c), LexQuoted(s, |pre + first|, quote))
  {
    assert s[|pre|] == first[0];
    if |first| == 2 {
      assert s[|pre| + 1] == first[1];
    }
  }

  lemma SpellFirst(body: seq<Quotable>)
    requires body != []
    ensures SpellBody(body[..1]) == (if body[0].Raw? then [body[0].c] else ['\\', body[0].c])
    ensures SpellBody(body) == SpellBody(body[..1]) + SpellBody(body[1..])
    ensures ReadBody(body) == [if body[0].Raw? then body[0].c else Unescape(body[0].c)] + ReadBody(body[1..])
  {
    assert body[..1][1..] == [];
  }

  lemma {:induction false} LexQuotedReads(quote: char, s: string, j: nat) returns (body: seq<Quotable>)
    requires (quote == '\"' || quote == '\'') && j <= |s| && LexQuoted(s, j, quote).Ok?
    ensures var x := LexQuoted(s, j, quote).value;
      ValidBody(quote, body) && ReadBody(body) == x.item && s[j..x.end] == SpellBody(body) + [quote]
    decreases |s| - j
  {
    if s[j] == quote {
      body := [];
      assert s[j..j + 1] == [quote];
    } else if s[j] == '\\' {
      var tail := LexQuotedReads(quote, s, j + 2);
      body := [Escaped(s[j + 1])] + tail;
      QuotedCons(s, j, 2, LexQuoted(s, j + 2, quote).value.end, body, quote);
    } else {
      var tail := LexQuotedReads(quote, s, j + 1);
      body := [Raw(s[j])] + tail;
      QuotedCons(s, j, 1, LexQuoted(s, j + 1, quote).value.end, body, quote);
    }
  }

  lemma QuotedCons(s: string, j: nat, k: nat, end: nat, body: seq<Quotable>, quote: char)
    requires body != [] && j + k <= end <= |s| && s[j + k..end] == SpellBody(body[1..]) + [quote]
    requires k == (if body[0].Raw? then 1 else 2) && s[j + k - 1] == body[0].c && (k == 2 ==> s[j] == '\\')
    ensures s[j..end] == SpellBody(body) + [quote]
  {
    SpellFirst(body);
    SubSplit(s, j, j + k, end);
    SliceOfOneOrTwo(s, j, k);
    SeqAssoc(s[j..j + k], SpellBody(body[1..]), [quote]);
  }

  lemma SliceOfOneOrTwo(s: string, j: nat, k: nat)
    requires 1 <= k <= 2 && j + k <= |s|
    ensures s[j..j + k] == if k == 1 then [s[j]] else [s[j], s[j + 1]]
  {
  }

  lemma SubSplit(s: string, i: nat, j: nat, k: nat)
    requires i <= j <= k <= |s|
    ensures s[i..k] == s[i..j] + s[j..k]
  {
  }

  lemma SeqAssoc(a: string, b: string, c: string)
    ensures a + (b + c) == a + b + c
  {
  }

  /** Every text has a spelling in either kind of quotes. */
  lemma {:induction false} EveryTextIsQuotable(text: string, quote: char) returns (body: seq<Quotable>)
    requires quote == '\"' || quote == '\''
    ensures ValidBody(quote, body) && ReadBody(body) == text
    decreases |text|
  {
    if text == [] {
      body := [];
    } else {
      var tail := EveryTextIsQuotable(text[1..], quote);
      var c := text[0];
      body := [if c == quote || c == '\\' then Escaped(c) else Raw(c)] + tail;
      assert body[1..] == tail;
      assert text == [c] + text[1..];
    }
  }

  // ----- dotted paths -----

  predicate DotFree(s: string) { forall k :: 0 <= k < |s| ==> IsNotDot(s[k]) }

  predicate AllDotFree(parts: seq<string>) { forall k :: 0 <= k < |parts| ==> DotFree(parts[k]) }

  lemma SplitFirst(p: string, rest: string)
    requires DotFree(p)
    ensures SplitDots(p) == [p] && SplitDots(p + "." + rest) == [p] + SplitDots(rest)
  {
    SpanEndIs(p, 0, IsNotDot, |p|);
    var s := p + "." + rest;
    assert s[|p|] == '.';
    assert forall k :: 0 <= k < |p| ==> s[k] == p[k];
    SpanEndIs(s, 0, IsNotDot, |p|);
    assert s[..|p|] == p && s[|p| + 1..] == rest;
  }

  lemma {:induction false} SplitJoin(parts: seq<string>)
    requires parts != [] && AllDotFree(parts)
    ensures SplitDots(JoinDots(parts)) == parts
    decreases |parts|
  {
    if |parts| == 1 {
      SplitFirst(parts[0], "");
    } else {
      SplitFirst(parts[0], JoinDots(parts[1..]));
      SplitJoin(parts[1..]);
      assert parts == [parts[0]] + parts[1..];
    }
  }

  lemma {:induction false} JoinSplit(s: string)
    ensures JoinDots(SplitDots(s)) == s
    decreases |s|
  {
    var k := SpanEnd(s, 0, IsNotDot);
    SpanStops(s, 0, IsNotDot);
    if k < |s| {
      var tail := SplitDots(s[k + 1..]);
      JoinSplit(s[k + 1..]);
      assert ([s[..k]] + tail)[1..] == tail;
      assert s == s[..k] + "." + s[k + 1..];
    }
  }

  predicate AllNameChars(s: string) { forall k :: 0 <= k < |s| ==> IsNameChar(s[k]) }

  lemma {:induction false} SplitPathText(s: string)
    requires forall k :: 0 <= k < |s| ==> IsPathChar(s[k])
    ensures forall k :: 0 <= k < |SplitDots(s)| ==> AllNameChars(SplitDots(s)[k])
    decreases |s|
  {
    var k := SpanEnd(s, 0, IsNotDot);
    SpanStops(s, 0, IsNotDot);
    assert AllNameChars(s[..k]);
    if k < |s| {
      SplitPathText(s[k + 1..]);
    }
  }

  predicate AllNonEmpty(parts: seq<string>) { forall k :: 0 <= k < |parts| ==> parts[k] != "" }

  lemma DoubleDotTail(s: string, k: nat)
    requires k < |s| && s[k] == '.' && forall j :: 0 <= j < k ==> s[j] != '.'
    ensures HasDoubleDot(s) <==> (k + 1 < |s| && s[k + 1] == '.') || HasDoubleDot(s[k + 1..])
  {
    var t := s[k + 1..];
    if j :| 0 <= j < |s| - 1 && s[j] == '.' && s[j + 1] == '.' {
      if j > k {
        assert t[j - k - 1] == '.' && t[j - k - 1 + 1] == '.';
      }
    }
    if j :| 0 <= j < |t| - 1 && t[j] == '.' && t[j + 1] == '.' {
      assert s[j + k + 1] == '.' && s[j + k + 1 + 1] == '.';
    }
    if k + 1 < |s| && s[k + 1] == '.' {
      assert s[k] == '.' && s[k + 1] == '.';
    }
  }

  lemma NonEmptyCons(head: string, parts: seq<string>)
    ensures AllNonEmpty([head] + parts) <==> head != "" && AllNonEmpty(parts)
  {
    var all := [head] + parts;
    assert all[0] == head && forall j :: 0 <= j < |parts| ==> parts[j] == all[j + 1];
  }

  /** What follows the first dot decides, unless the path starts or ends with that dot. */
  lemma BadPathTail(s: string, k: nat)
    requires k < |s| && s[k] == '.' && forall j :: 0 <= j < k ==> s[j] != '.'
    ensures BadPath(s) <==> k == 0 || k == |s| - 1 || BadPath(s[k + 1..])
  {
    DoubleDotTail(s, k);
    var t := s[k + 1..];
    if t != "" {
      assert t[0] == s[k + 1] && t[|t| - 1] == s[|s| - 1];
    }
  }

  /** The scanner's three textual checks say exactly that no step of the path is empty. */
  lemma {:induction false} BadPathIffEmptyPart(s: string)
    requires s != ""
    ensures BadPath(s) <==> !AllNonEmpty(SplitDots(s))
    decreases |s|
  {
    var k := SpanEnd(s, 0, IsNotDot);
    SpanStops(s, 0, IsNotDot);
    if k == |s| {
      assert s[0] != '.' && s[|s| - 1] != '.';
    } else {
      BadPathTail(s, k);
      NonEmptyCons(s[..k], SplitDots(s[k + 1..]));
      if k == |s| - 1 {
        assert SplitDots("") == [""] && [""][0] == "";
      } else {
        BadPathIffEmptyPart(s[k + 1..]);
      }
    }
  }

  lemma {:induction false} JoinIsPathText(parts: seq<string>)
    requires parts != [] && forall k :: 0 <= k < |parts| ==> IsName(parts[k])
    ensures IsName(parts[0]) && JoinDots(parts) != "" && JoinDots(parts)[0] == parts[0][0]
    ensures forall k :: 0 <= k < |JoinDots(parts)| ==> IsPathChar(JoinDots(parts)[k])
    decreases |parts|
  {
    if |parts| > 1 {
      JoinIsPathText(parts[1..]);
    }
  }

  lemma LiteralIsNoRoot(word: string)
    requires IsLiteral(word)
    ensures DotFree(word) && !IsContextRoot(word)
  {
  }

  lemma PathIsNoLiteral(parts: seq<string>)
    requires ValidPath(parts)
    ensures !IsLiteral(JoinDots(parts))
  {
    var word := JoinDots(parts);
    if IsLiteral(word) {
      LiteralIsNoRoot(word);
      SplitJoin(parts);
      SplitFirst(word, "");
    }
  }

  /** A dotted path or a literal, as one word of the text. */
  ghost predicate ReadsAsWord(word: string, tok: Token)
  {
    && word != "" && IsNameStart(word[0])
    && (forall k :: 0 <= k < |word| ==> IsPathChar(word[k]))
    && LexWord(word) == Ok(tok)
  }

  lemma PathReadsAsWord(parts: seq<string>)
    requires ValidPath(parts)
    ensures ReadsAsWord(JoinDots(parts), Leaf(Path(parts)))
  {
    JoinIsPathText(parts);
    SplitJoin(parts);
    BadPathIffEmptyPart(JoinDots(parts));
    PathIsNoLiteral(parts);
  }

  lemma KeywordReadsAsWord(name: string)
    requires IsLiteral(name)
    ensures ReadsAsWord(name, Leaf(Literal(LiteralValue(name))))
  {
  }

  lemma LexWordReads(ident: string) returns (l: Lexeme)
    requires ident != "" && LexWord(ident).Ok? && forall k :: 0 <= k < |ident| ==> IsPathChar(ident[k])
    ensures ValidLexeme(l) && (l.Word? || l.Keyword?) && TokenOf(l) == LexWord(ident).value && Spell(l) == ident
  {
    if IsLiteral(ident) {
      l := Keyword(ident);
    } else {
      var parts := SplitDots(ident);
      JoinSplit(ident);
      SplitPathText(ident);
      BadPathIffEmptyPart(ident);
      l := Word(parts);
      forall k | 0 <= k < |parts|
        ensures IsName(parts[k])
      {
        assert AllNameChars(parts[k]);
      }
    }
  }

  // ----- one token -----

  /** The scanner, standing at `l` in a text, reads exactly `l`. */
  ghost predicate Reads(l: Lexeme, pre: string, rest: string)
    requires ValidLexeme(l)
  {
    var s := pre + Spell(l) + rest;
    && |pre| < |s| && !IsSpace(s[|pre|])
    && LexOne(s, |pre|) == Ok(Scanned(TokenOf(l), |pre| + |Spell(l)|))
  }

  lemma LexOneSpelled(l: Lexeme, pre: string, rest: string)
    requires ValidLexeme(l) && MayPrecede(l, rest)
    ensures Reads(l, pre, rest)
  {
    if l.Word? || l.Keyword? {
      LexPathSpelled(l, pre, rest);
    } else if l.Numeral? {
      LexNumeralSpelled(l, pre, rest);
    } else if l.Quoted? {
      LexTextSpelled(l, pre, rest);
    } else {
      LexSymbolSpelled(l, pre, rest);
    }
  }

  lemma LexPathSpelled(l: Lexeme, pre: string, rest: string)
    requires (l.Word? || l.Keyword?) && ValidLexeme(l) && MayPrecede(l, rest)
    ensures Reads(l, pre, rest)
  {
    if l.Word? {
      PathReadsAsWord(l.parts);
    } else {
      KeywordReadsAsWord(l.name);
    }
    LexPathText(Spell(l), TokenOf(l), pre, rest);
  }

  lemma LexPathText(word: string, tok: Token, pre: string, rest: string)
    requires ReadsAsWord(word, tok) && (rest != "" ==> !IsPathChar(rest[0]))
    ensures var s := pre + word + rest;
      |pre| < |s| && !IsSpace(s[|pre|]) && LexOne(s, |pre|) == Ok(Scanned(tok, |pre| + |word|))
  {
    var s := pre + word + rest;
    assert s[|pre|] == word[0];
    SpanEndIs(s, |pre|, IsPathChar, |pre| + |word|);
    assert s[|pre|..|pre| + |word|] == word;
  }

  lemma LexNumeralSpelled(l: Lexeme, pre: string, rest: string)
    requires l.Numeral? && ValidLexeme(l) && MayPrecede(l, rest)
    ensures Reads(l, pre, rest)
  {
    LexNumeralText(l.digits, TokenOf(l), pre, rest);
  }

  lemma LexNumeralText(digits: string, tok: Token, pre: string, rest: string)
    requires digits != "" && (forall k :: 0 <= k < |digits| ==> IsNumeralChar(digits[k])) && StartsNumeral(digits, 0)
    requires LexNumeral(digits) == Ok(tok) && (rest != "" ==> !IsNumeralChar(rest[0]))
    ensures var s := pre + digits + rest;
      |pre| < |s| && !IsSpace(s[|pre|]) && LexOne(s, |pre|) == Ok(Scanned(tok, |pre| + |digits|))
  {
    var s := pre + digits + rest;
    assert s[|pre|] == digits[0] && (|digits| > 1 ==> s[|pre| + 1] == digits[1]);
    SpanEndIs(s, |pre|, IsNumeralChar, |pre| + |digits|);
    assert s[|pre|..|pre| + |digits|] == digits;
    assert IsNumeralChar(digits[0]) && StartsNumeral(s, |pre|);
  }

  lemma LexTextSpelled(l: Lexeme, pre: string, rest: string)
    requires l.Quoted? && ValidLexeme(l)
    ensures Reads(l, pre, rest)
  {
    LexQuotedSpelled(l.quote, l.body, pre + [l.quote], rest);
    assert pre + Spell(l) + rest == (pre + [l.quote]) + SpellBody(l.body) + ([l.quote] + rest);
  }

  lemma LexSymbolSpelled(l: Lexeme, pre: string, rest: string)
    requires (l.Symbol? || l.LeftParen? || l.RightParen?) && MayPrecede(l, rest)
    ensures Reads(l, pre, rest)
  {
    var w := Spell(l);
    var s := pre + w + rest;
    assert s[|pre|] == w[0];
    if |w| == 2 {
      assert s[|pre| + 1] == w[1];
    } else if rest != "" {
      assert s[|pre| + 1] == rest[0];
    }
  }

  lemma TwoCharOpSpells(a: char, b: char)
    requires TwoCharOp(a, b).Ok?
    ensures SpellOp(TwoCharOp(a, b).value) == [a, b]
  {
  }

  lemma LexOneReads(s: string, i: nat) returns (l: Lexeme)
    requires i < |s| && !IsSpace(s[i]) && LexOne(s, i).Ok?
    ensures var x := LexOne(s, i).value;
      ValidLexeme(l) && TokenOf(l) == x.item && Spell(l) == s[i..x.end] && MayPrecede(l, s[x.end..])
  {
    var c := s[i];
    var end := LexOne(s, i).value.end;
    if c == '(' {
      l := LeftParen;
    } else if c == ')' {
      l := RightParen;
    } else if (i + 1 < |s| && TwoCharOp(c, s[i + 1]).Ok?) || OneCharOp(c).Ok? {
      l := LexSymbolReads(s, i);
    } else if c == '\"' || c == '\'' {
      l := LexTextReads(s, i);
    } else if StartsNumeral(s, i) {
      l := LexNumeralReads(s, i);
    } else {
      SpanStops(s, i, IsPathChar);
      assert IsPathChar(s[i]);
      l := LexWordReads(s[i..end]);
    }
  }

  lemma LexSymbolReads(s: string, i: nat) returns (l: Lexeme)
    requires i < |s| && s[i] != '(' && s[i] != ')' && LexOne(s, i).Ok?
    requires (i + 1 < |s| && TwoCharOp(s[i], s[i + 1]).Ok?) || OneCharOp(s[i]).Ok?
    ensures var x := LexOne(s, i).value;
      l.Symbol? && TokenOf(l) == x.item && Spell(l) == s[i..x.end] && MayPrecede(l, s[x.end..])
  {
    if i + 1 < |s| && TwoCharOp(s[i], s[i + 1]).Ok? {
      TwoCharOpSpells(s[i], s[i + 1]);
      l := Symbol(TwoCharOp(s[i], s[i + 1]).value);
    } else {
      l := Symbol(OneCharOp(s[i]).value);
    }
  }

  lemma LexTextReads(s: string, i: nat) returns (l: Lexeme)
    requires i < |s| && (s[i] == '\"' || s[i] == '\'') && LexOne(s, i).Ok?
    ensures var x := LexOne(s, i).value;
      l.Quoted? && ValidLexeme(l) && TokenOf(l) == x.item && Spell(l) == s[i..x.end] && MayPrecede(l, s[x.end..])
  {
    var end := LexOne(s, i).value.end;
    var body := LexQuotedReads(s[i], s, i + 1);
    l := Quoted(s[i], body);
    assert s[i..end] == [s[i]] + s[i + 1..end];
  }

  lemma LexNumeralReads(s: string, i: nat) returns (l: Lexeme)
    requires i < |s| && StartsNumeral(s, i) && LexNumeral(s[i..SpanEnd(s, i, IsNumeralChar)]).Ok?
    ensures var end := SpanEnd(s, i, IsNumeralChar);
      l == Numeral(s[i..end]) && ValidLexeme(l) && MayPrecede(l, s[end..])
  {
    var end := SpanEnd(s, i, IsNumeralChar);
    SpanStops(s, i, IsNumeralChar);
    assert IsNumeralChar(s[i]);
    if i + 1 < |s| && IsDigit(s[i + 1]) {
      assert IsNumeralChar(s[i + 1]);
    }
    l := Numeral(s[i..end]);
  }

  // ----- whole texts -----

  /** A lexeme and the white space after it. */
  datatype Piece = Piece(lexeme: Lexeme, gap: string)

  predicate AllSpace(s: string) { forall c | c in s :: IsSpace(c) }

  predicate ValidPieces(ps: seq<Piece>)
  {
    forall p | p in ps :: ValidLexeme(p.lexeme) && AllSpace(p.gap)
  }

  function Render(ps: seq<Piece>): string
    requires ValidPieces(ps)
  {
    if ps == [] then "" else Spell(ps[0].lexeme) + (ps[0].gap + Render(ps[1..]))
  }

  predicate WellSpaced(ps: seq<Piece>)
    requires ValidPieces(ps)
  {
    ps != [] ==> MayPrecede(ps[0].lexeme, ps[0].gap + Render(ps[1..])) && WellSpaced(ps[1..])
  }

  function TokensOf(ps: seq<Piece>): seq<Token>
  {
    if ps == [] then [] else [TokenOf(ps[0].lexeme)] + TokensOf(ps[1..])
  }

  ghost predicate SpellsTokens(text: string, tokens: seq<Token>)
  {
    exists lead, ps :: SpellsAs(text, lead, ps) && TokensOf(ps) == tokens
  }

  predicate SpellsAs(text: string, lead: string, ps: seq<Piece>)
  {
    AllSpace(lead) && ValidPieces(ps) && WellSpaced(ps) && text == lead + Render(ps)
  }

  lemma {:induction false} SkipSpace(s: string, i: nat, j: nat)
    requires i <= j <= |s| && forall k :: i <= k < j ==> IsSpace(s[k])
    ensures LexFrom(s, i) == LexFrom(s, j)
    decreases j - i
  {
    if i < j {
      SkipSpace(s, i + 1, j);
    }
  }

  lemma GapIsSpace(pre: string, gap: string, rest: string)
    requires AllSpace(gap)
    ensures var s := pre + gap + rest; forall k :: |pre| <= k < |pre + gap| ==> IsSpace(s[k])
  {
    var s := pre + gap + rest;
    forall k | |pre| <= k < |pre + gap|
      ensures IsSpace(s[k])
    {
      assert s[k] == gap[k - |pre|] && gap[k - |pre|] in gap;
    }
  }

  /** Tokenizing a rendered list of lexemes gives back exactly their tokens. */
  lemma {:induction false} LexRendered(ps: seq<Piece>, pre: string)
    requires ValidPieces(ps) && WellSpaced(ps)
    ensures LexFrom(pre + Render(ps), |pre|) == Ok(TokensOf(ps))
    decreases |ps|
  {
    if ps != [] {
      LexRendered(ps[1..], pre + Spell(ps[0].lexeme) + ps[0].gap);
      LexPiece(ps[0], Render(ps[1..]), pre);
    }
  }

  lemma LexPiece(p: Piece, tail: string, pre: string)
    requires ValidLexeme(p.lexeme) && AllSpace(p.gap) && MayPrecede(p.lexeme, p.gap + tail)
    ensures var w := Spell(p.lexeme);
      var s := pre + (w + (p.gap + tail));
      && s == pre + w + p.gap + tail
      && LexFrom(s, |pre|) == Prepend([TokenOf(p.lexeme)], LexFrom(s, |pre + w + p.gap|))
  {
    var w := Spell(p.lexeme);
    var s := pre + (w + (p.gap + tail));
    assert s == pre + w + (p.gap + tail) == pre + w + p.gap + tail;
    LexOneSpelled(p.lexeme, pre, p.gap + tail);
    GapIsSpace(pre + w, p.gap, tail);
    LexTokenThenSpace(s, |pre|, |pre + w|, |pre + w + p.gap|, TokenOf(p.lexeme));
  }

  lemma LexTokenThenSpace(s: string, i: nat, j: nat, k: nat, tok: Token)
    requires i < |s| && !IsSpace(s[i]) && LexOne(s, i) == Ok(Scanned(tok, j))
    requires j <= k <= |s| && forall n :: j <= n < k ==> IsSpace(s[n])
    ensures LexFrom(s, i) == Prepend([tok], LexFrom(s, k))
  {
    SkipSpace(s, j, k);
  }

  lemma {:induction false} LexReads(s: string, i: nat) returns (lead: string, ps: seq<Piece>)
    requires i <= |s| && LexFrom(s, i).Ok?
    ensures SpellsAs(s[i..], lead, ps) && TokensOf(ps) == LexFrom(s, i).value
    decreases |s| - i
  {
    if i == |s| {
      lead, ps := "", [];
    } else if IsSpace(s[i]) {
      lead, ps := LexReads(s, i + 1);
      SpellsSpace(s[i], lead, ps);
      lead := [s[i]] + lead;
      assert s[i..] == [s[i]] + s[i + 1..];
    } else {
      lead, ps := LexReadsToken(s, i);
    }
  }

  lemma {:induction false} LexReadsToken(s: string, i: nat) returns (lead: string, ps: seq<Piece>)
    requires i < |s| && !IsSpace(s[i]) && LexFrom(s, i).Ok?
    ensures SpellsAs(s[i..], lead, ps) && TokensOf(ps) == LexFrom(s, i).value
    decreases |s| - i, 0
  {
    var end := LexOne(s, i).value.end;
    var l := LexOneReads(s, i);
    var gap, tail := LexReads(s, end);
    lead, ps := "", [Piece(l, gap)] + tail;
    SpellsCons(l, s[end..], gap, tail);
    SliceSplit(s, i, end);
  }

  lemma SliceSplit(s: string, i: nat, j: nat)
    requires i <= j <= |s|
    ensures s[i..] == s[i..j] + s[j..]
  {
  }

  lemma SpellsSpace(c: char, lead: string, ps: seq<Piece>)
    requires IsSpace(c) && AllSpace(lead) && ValidPieces(ps)
    ensures AllSpace([c] + lead) && [c] + (lead + Render(ps)) == ([c] + lead) + Render(ps)
  {
  }

  lemma SpellsCons(l: Lexeme, rest: string, gap: string, tail: seq<Piece>)
    requires ValidLexeme(l) && MayPrecede(l, rest) && SpellsAs(rest, gap, tail)
    ensures SpellsAs(Spell(l) + rest, "", [Piece(l, gap)] + tail)
    ensures TokensOf([Piece(l, gap)] + tail) == [TokenOf(l)] + TokensOf(tail)
  {
    var ps := [Piece(l, gap)] + tail;
    assert ps[1..] == tail;
    assert "" + Render(ps) == Render(ps);
  }

  /** The tokenizer accepts exactly the texts that spell some lexeme list, and reads them as its tokens. */
  lemma LexIffSpelled(text: string, tokens: seq<Token>)
    ensures Lex(text) == Ok(tokens) <==> SpellsTokens(text, tokens)
  {
    if Lex(text) == Ok(tokens) {
      var lead, ps := LexReads(text, 0);
      assert text[0..] == text;
    }
    forall lead, ps | SpellsAs(text, lead, ps) && TokensOf(ps) == tokens
      ensures Lex(text) == Ok(tokens)
    {
      SpelledIsLexed(lead, ps);
    }
  }

  lemma LeadIsSpace(lead: string, rest: string)
    requires AllSpace(lead)
    ensures forall k :: 0 <= k < |lead| ==> IsSpace((lead + rest)[k])
  {
    forall k | 0 <= k < |lead|
      ensures IsSpace((lead + rest)[k])
    {
      assert lead[k] in lead;
    }
  }

  lemma SpelledIsLexed(lead: string, ps: seq<Piece>)
    requires AllSpace(lead) && ValidPieces(ps) && WellSpaced(ps)
    ensures Lex(lead + Render(ps)) == Ok(TokensOf(ps))
  {
    LeadIsSpace(lead, Render(ps));
    SkipSpace(lead + Render(ps), 0, |lead|);
    LexRendered(ps, lead);
  }

  /** A gap of at least one space character separates any two lexemes. */
  lemma GapSeparates(l: Lexeme, gap: string, rest: string)
    requires gap != "" && AllSpace(gap)
    ensures MayPrecede(l, gap + rest)
  {
    assert gap[0] in gap && (gap + rest)[0] == gap[0];
  }

  // ----- conditions, from text to value -----

  function Condition(expression: string, context: Value, cmp: Comparisons): Result<Value>
  {
    match Lex(expression)
    case SyntaxError => SyntaxError
    case Ok(ts) => Evaluate(ts, context, cmp)
  }

  /** However an expression is spelled and spaced, evaluating its text gives its meaning. */
  lemma TextHasMeaning(text: string, e: Expr, context: Value, cmp: Comparisons)
    requires SpellsTokens(text, Print(e, 1))
    ensures Condition(text, context, cmp) == Ok(Meaning(e, context, cmp))
  {
    LexIffSpelled(text, Print(e, 1));
    EvaluatesPrinted(e, context, cmp);
  }

  /** Conversely, an accepted text without juxtaposed operands is some expression's text and has that
      expression's meaning; the only other accepted texts are the blank ones, which are false. */
  lemma AcceptedTextHasMeaning(text: string, tokens: seq<Token>, context: Value, cmp: Comparisons)
    requires Lex(text) == Ok(tokens) && !Juxtaposes(tokens) && Condition(text, context, cmp).Ok?
    ensures tokens != [] ==>
      exists e :: SpellsTokens(text, Print(e, 1)) && Condition(text, context, cmp) == Ok(Meaning(e, context, cmp))
    ensures tokens == [] ==> AllSpace(text) && Condition(text, context, cmp) == Ok(Bool(false))
  {
    LexIffSpelled(text, tokens);
    if tokens == [] {
      var lead, ps :| SpellsAs(text, lead, ps) && TokensOf(ps) == tokens;
      assert lead + Render(ps) == lead;
    } else {
      AcceptedIffPrinted(tokens, context, cmp);
      var e :| Print(e, 1) == tokens;
      TextHasMeaning(text, e, context, cmp);
    }
  }
}
