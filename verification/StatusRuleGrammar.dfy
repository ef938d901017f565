/** Which token lists the evaluator accepts, compared with the ones some expression prints as. */
module StatusRuleGrammar {
  import opened StatusRules

  predicate StartsOperand(tok: Token)
  {
    tok.Leaf? || tok.Open? || tok == Operator(Not)
  }

  predicate EndsOperand(tok: Token)
  {
    tok.Leaf? || tok.Close?
  }

  /** An operand starts directly after the end of another. The evaluator only counts operands on its stacks,
      so among such lists it accepts some that no expression prints as (postfix order, for one). */
  predicate Juxtaposes(t: seq<Token>)
  {
    exists k :: 0 <= k < |t| - 1 && EndsOperand(t[k]) && StartsOperand(t[k + 1])
  }

  /** Operands and operators alternate and parentheses match; `want` says whether an operand is due. */
  predicate Alternates(t: seq<Token>, want: bool, depth: nat)
  {
    if t == [] then !want && depth == 0
    else
      match t[0]
      case Leaf(_) => want && Alternates(t[1..], false, depth)
      case Operator(op) => want == op.Not? && Alternates(t[1..], true, depth)
      case Open => want && Alternates(t[1..], true, depth + 1)
      case Close => !want && depth > 0 && Alternates(t[1..], false, depth - 1)
  }

  // ----- every alternating list is some expression, printed -----

  /** `e` prints at level `p` without any parentheses of the printer's own. */
  predicate Plain(e: Expr, p: nat)
  {
    match e
    case Atom(_) => true
    case Negate(a) => Plain(a, 5)
    case Group(a) => Plain(a, 1)
    case Binop(op, l, r) =>
      var q := BinaryPrecedence(op);
      q >= p && Plain(l, q) && Plain(r, q + 1)
  }

  /** Appends `op a` at the right end of `e`, as deep as precedence puts it. */
  function Append(e: Expr, op: Binary, a: Expr): Expr
  {
    if e.Binop? && BinaryPrecedence(e.op) < BinaryPrecedence(op) then
      Binop(e.op, e.l, Append(e.r, op, a))
    else
      Binop(op, e, a)
  }

  lemma PrintBinop(op: Binary, l: Expr, r: Expr, p: nat)
    requires p <= BinaryPrecedence(op)
    ensures Print(Binop(op, l, r), p)
         == Print(l, BinaryPrecedence(op)) + [Operator(Bin(op))] + Print(r, BinaryPrecedence(op) + 1)
  {
  }

  lemma PlainPrint(e: Expr, p: nat, q: nat)
    requires Plain(e, p) && (e.Binop? ==> q <= BinaryPrecedence(e.op))
    ensures Plain(e, q) && Print(e, q) == Print(e, p)
  {
  }

  lemma SeqAssoc(a: seq<Token>, b: seq<Token>, c: seq<Token>, d: seq<Token>)
    ensures a + (b + c + d) == (a + b) + c + d == a + (b + (c + d)) == a + b + (c + d)
  {
  }

  lemma {:induction false} AppendPrints(e: Expr, op: Binary, a: Expr, p: nat)
    requires Plain(e, p) && Plain(a, 5) && p <= BinaryPrecedence(op)
    ensures Plain(Append(e, op, a), p)
    ensures Print(Append(e, op, a), p) == Print(e, p) + [Operator(Bin(op))] + Print(a, 5)
    decreases e
  {
    var q := BinaryPrecedence(op);
    if e.Binop? && BinaryPrecedence(e.op) < q {
      AppendPrints(e.r, op, a, BinaryPrecedence(e.op) + 1);
      AppendInsidePrints(e, Append(e.r, op, a), [Operator(Bin(op))], Print(a, 5), p);
    } else {
      PlainPrint(a, 5, q + 1);
      PlainPrint(e, p, q);
      PrintBinop(op, e, a, p);
    }
  }

  lemma AppendInsidePrints(e: Expr, r: Expr, middle: seq<Token>, last: seq<Token>, p: nat)
    requires e.Binop? && p <= BinaryPrecedence(e.op)
    requires Print(r, BinaryPrecedence(e.op) + 1) == Print(e.r, BinaryPrecedence(e.op) + 1) + middle + last
    ensures Print(Binop(e.op, e.l, r), p) == Print(e, p) + middle + last
  {
    var q := BinaryPrecedence(e.op);
    PrintBinop(e.op, e.l, e.r, p);
    PrintBinop(e.op, e.l, r, p);
    SeqAssoc(Print(e.l, q) + [Operator(Bin(e.op))], Print(e.r, q + 1), middle, last);
  }

  lemma {:induction false} ParseUnary(t: seq<Token>, depth: nat) returns (e: Expr, rest: seq<Token>)
    requires Alternates(t, true, depth)
    ensures Plain(e, 5) && t == Print(e, 5) + rest && Alternates(rest, false, depth)
    decreases |t|, 0
  {
    match t[0]
    case Leaf(o) =>
      e, rest := Atom(o), t[1..];
    case Operator(op) =>
      var a;
      a, rest := ParseUnary(t[1..], depth);
      e := Negate(a);
      assert t == [t[0]] + t[1..];
    case Open =>
      var a, closed := ParseExpr(t[1..], depth + 1);
      e, rest := Group(a), closed[1..];
      assert t == [Open] + t[1..] && closed == [Close] + rest;
  }

  lemma {:induction false} ParseExpr(t: seq<Token>, depth: nat) returns (e: Expr, rest: seq<Token>)
    requires Alternates(t, true, depth)
    ensures Plain(e, 1) && t == Print(e, 1) + rest && Alternates(rest, false, depth)
    ensures rest == [] || rest[0] == Close
    decreases |t|, 2
  {
    var first, tail := ParseUnary(t, depth);
    assert !first.Binop? && Print(first, 5) == Print(first, 1);
    assert |tail| < |t|;
    e, rest := ParseTail(first, tail, depth);
  }

  lemma {:induction false} ParseTail(e: Expr, t: seq<Token>, depth: nat) returns (e': Expr, rest: seq<Token>)
    requires Plain(e, 1) && Alternates(t, false, depth)
    ensures Plain(e', 1) && Print(e, 1) + t == Print(e', 1) + rest && Alternates(rest, false, depth)
    ensures rest == [] || rest[0] == Close
    decreases |t|, 1
  {
    if t == [] || t[0] == Close {
      e', rest := e, t;
    } else {
      var op := t[0].op.op;
      var a, tail := ParseUnary(t[1..], depth);
      AppendPrints(e, op, a, 1);
      assert t == [Operator(Bin(op))] + t[1..];
      SeqAssoc(Print(e, 1), [Operator(Bin(op))], Print(a, 5), tail);
      e', rest := ParseTail(Append(e, op, a), tail, depth);
    }
  }

  // ----- every printed expression alternates -----

  lemma {:induction false} PrintAlternates(e: Expr, p: nat, rest: seq<Token>, depth: nat)
    requires Alternates(rest, false, depth)
    ensures Alternates(Print(e, p) + rest, true, depth)
    decreases e, p
  {
    match e
    case Atom(_) =>
      assert (Print(e, p) + rest)[1..] == rest;
    case Negate(a) =>
      PrintAlternates(a, 5, rest, depth);
      assert (Print(e, p) + rest)[1..] == Print(a, 5) + rest;
    case Group(a) =>
      CloseAlternates(rest, depth);
      PrintAlternates(a, 1, [Close] + rest, depth + 1);
      OpenAlternates(Print(a, 1), rest, depth);
    case Binop(op, l, r) =>
      var q := BinaryPrecedence(op);
      if q < p {
        CloseAlternates(rest, depth);
        PrintAlternates(e, 1, [Close] + rest, depth + 1);
        OpenAlternates(Print(e, 1), rest, depth);
      } else {
        PrintBinop(op, l, r, p);
        PrintAlternates(r, q + 1, rest, depth);
        var back := BinopBack(op, Print(l, q), Print(r, q + 1), rest, depth);
        PrintAlternates(l, q, back, depth);
      }
  }

  lemma CloseAlternates(rest: seq<Token>, depth: nat)
    requires Alternates(rest, false, depth)
    ensures Alternates([Close] + rest, false, depth + 1)
  {
    assert ([Close] + rest)[1..] == rest;
  }

  lemma OpenAlternates(body: seq<Token>, rest: seq<Token>, depth: nat)
    requires Alternates(body + ([Close] + rest), true, depth + 1)
    ensures Alternates([Open] + body + [Close] + rest, true, depth)
  {
    var t := [Open] + body + [Close] + rest;
    assert t[1..] == body + ([Close] + rest);
  }

  lemma BinopBack(op: Binary, left: seq<Token>, right: seq<Token>, rest: seq<Token>, depth: nat)
    returns (back: seq<Token>)
    requires Alternates(right + rest, true, depth)
    ensures Alternates(back, false, depth)
    ensures left + [Operator(Bin(op))] + right + rest == left + back
  {
    back := [Operator(Bin(op))] + (right + rest);
    assert back[1..] == right + rest;
  }

  lemma {:induction false} AlternatesJuxtaposesNothing(t: seq<Token>, want: bool, depth: nat, k: nat)
    requires Alternates(t, want, depth) && k < |t| - 1
    ensures !(EndsOperand(t[k]) && StartsOperand(t[k + 1]))
    decreases k
  {
    if k > 0 {
      var want' := t[0].Operator? || t[0].Open?;
      var depth' := if t[0].Open? then depth + 1 else if t[0].Close? then depth - 1 else depth;
      AlternatesJuxtaposesNothing(t[1..], want', depth', k - 1);
    } else {
      assert t[1..][0] == t[1];
    }
  }

  /** The grammar, as a left-to-right scan: a list alternates exactly when some expression prints as it. */
  lemma AlternatesIffPrinted(t: seq<Token>)
    ensures Alternates(t, true, 0) <==> exists e :: Print(e, 1) == t
  {
    if Alternates(t, true, 0) {
      var e, rest := ParseExpr(t, 0);
      assert rest == [];
      assert Print(e, 1) == t;
    }
    forall e | Print(e, 1) == t
      ensures Alternates(t, true, 0)
    {
      PrintAlternates(e, 1, [], 0);
      assert t + [] == t;
    }
  }

  // ----- what acceptance says about a list -----

  /** Operands minus binary operators. */
  function Balance(t: seq<Token>): int
  {
    if t == [] then 0
    else (match t[0]
          case Leaf(_) => 1
          case Operator(op) => if op.Bin? then -1 else 0
          case Open => 0
          case Close => 0) + Balance(t[1..])
  }

  function PendingBinaries(ops: seq<Entry>): nat
  {
    if ops == [] then 0
    else (if ops[|ops| - 1].Pending? && ops[|ops| - 1].op.Bin? then 1 else 0) + PendingBinaries(ops[..|ops| - 1])
  }

  function Marks(ops: seq<Entry>): nat
  {
    if ops == [] then 0
    else (if ops[|ops| - 1] == Mark then 1 else 0) + Marks(ops[..|ops| - 1])
  }

  function Weight(st: Stacks): int
  {
    |st.output| - PendingBinaries(st.ops)
  }

  lemma {:induction false} PopOutrankingKeeps(st: Stacks, op: Op, cmp: Comparisons)
    requires PopOutranking(st, op, cmp).Ok?
    ensures var st' := PopOutranking(st, op, cmp).value; Weight(st') == Weight(st) && Marks(st'.ops) == Marks(st.ops)
    decreases |st.ops|
  {
    var n := |st.ops|;
    if n == 0 || st.ops[n - 1] == Mark || !Outranks(st.ops[n - 1].op, op) {
    } else {
      PopOutrankingKeeps(Stacks(Apply(st.ops[n - 1].op, st.output, cmp).value, st.ops[..n - 1]), op, cmp);
    }
  }

  lemma {:induction false} PopToMarkKeeps(st: Stacks, cmp: Comparisons)
    requires PopToMark(st, cmp).Ok?
    ensures var st' := PopToMark(st, cmp).value; Weight(st') == Weight(st) && Marks(st'.ops) == Marks(st.ops)
    decreases |st.ops|
  {
    var n := |st.ops|;
    if n == 0 || st.ops[n - 1] == Mark {
    } else {
      PopToMarkKeeps(Stacks(Apply(st.ops[n - 1].op, st.output, cmp).value, st.ops[..n - 1]), cmp);
    }
  }

  lemma PushKeeps(ops: seq<Entry>, x: Entry)
    ensures PendingBinaries(ops + [x]) == PendingBinaries(ops) + (if x.Pending? && x.op.Bin? then 1 else 0)
    ensures Marks(ops + [x]) == Marks(ops) + (if x == Mark then 1 else 0)
  {
    assert (ops + [x])[..|ops|] == ops;
  }

  /** What one token does to the stacks' weight and to the number of open parentheses. */
  lemma StepKeeps(tok: Token, st: Stacks, context: Value, cmp: Comparisons)
    requires Step(tok, st, context, cmp).Ok?
    ensures var st' := Step(tok, st, context, cmp).value;
      && Weight(st') == Weight(st) + Balance([tok])
      && Marks(st'.ops) == Marks(st.ops) + (if tok.Open? then 1 else if tok.Close? then -1 else 0)
  {
    assert [tok][1..] == [];
    match tok
    case Leaf(o) =>
    case Operator(op) =>
      PopOutrankingKeeps(st, op, cmp);
      PushKeeps(PopOutranking(st, op, cmp).value.ops, Pending(op));
    case Open =>
      PushKeeps(st.ops, Mark);
    case Close =>
      PopToMarkKeeps(st, cmp);
  }

  lemma JuxtaposesTail(t: seq<Token>)
    requires t != []
    ensures Juxtaposes(t[1..]) ==> Juxtaposes(t)
  {
    if k :| 0 <= k < |t[1..]| - 1 && EndsOperand(t[1..][k]) && StartsOperand(t[1..][k + 1]) {
      assert EndsOperand(t[k + 1]) && StartsOperand(t[k + 1 + 1]);
    }
  }

  /** On a juxtaposition-free suffix, a run that finishes can only have met alternating tokens. */
  lemma {:induction false} AcceptedAlternates(t: seq<Token>, want: bool, st: Stacks, context: Value, cmp: Comparisons)
    requires !Juxtaposes(t) && (!want && t != [] ==> !StartsOperand(t[0]))
    requires Run(t, st, context, cmp).Ok? && Finish(Run(t, st, context, cmp).value, cmp).Ok?
    ensures Weight(st) + Balance(t) == 1
    ensures Balance(t) <= (if want then 1 else 0)
    ensures Balance(t) == (if want then 1 else 0) ==> Alternates(t, want, Marks(st.ops))
    decreases |t|
  {
    if t == [] {
      PopToMarkKeeps(st, cmp);
    } else {
      var st' := Step(t[0], st, context, cmp).value;
      StepKeeps(t[0], st, context, cmp);
      assert [t[0]][1..] == [];
      var want' := !EndsOperand(t[0]);
      JuxtaposesTail(t);
      if !want' && t[1..] != [] {
        assert EndsOperand(t[0]) && !StartsOperand(t[0 + 1]);
      }
      AcceptedAlternates(t[1..], want', st', context, cmp);
    }
  }

  /** The evaluator accepts a juxtaposition-free list exactly when it is a printed expression. */
  lemma AcceptedIffPrinted(t: seq<Token>, context: Value, cmp: Comparisons)
    ensures (exists e :: Print(e, 1) == t) <==> t != [] && Evaluate(t, context, cmp).Ok? && !Juxtaposes(t)
  {
    AlternatesIffPrinted(t);
    if exists e :: Print(e, 1) == t {
      var e :| Print(e, 1) == t;
      EvaluatesPrinted(e, context, cmp);
      if Juxtaposes(t) {
        var k :| 0 <= k < |t| - 1 && EndsOperand(t[k]) && StartsOperand(t[k + 1]);
        AlternatesJuxtaposesNothing(t, true, 0, k);
      }
    }
    if t != [] && Evaluate(t, context, cmp).Ok? && !Juxtaposes(t) {
      AcceptedAlternates(t, true, Stacks([], []), context, cmp);
    }
  }

  /** Outside the grammar and still accepted: `true true &&` evaluates like `true && true`. */
  lemma PostfixIsAccepted(context: Value, cmp: Comparisons)
    ensures var t := [Leaf(Literal(Bool(true))), Leaf(Literal(Bool(true))), Operator(Bin(And))];
      Evaluate(t, context, cmp) == Ok(Bool(true)) && !exists e :: Print(e, 1) == t
  {
    var yes := Leaf(Literal(Bool(true)));
    var and := Operator(Bin(And));
    var t := [yes, yes, and];
    var one, two := Stacks([Bool(true)], []), Stacks([Bool(true), Bool(true)], []);
    var last := two.(ops := [Pending(Bin(And))]);
    assert [] + [Bool(true)] == one.output && one.output + [Bool(true)] == two.output;
    assert two.ops + [Pending(Bin(And))] == last.ops;
    assert Step(yes, Stacks([], []), context, cmp) == Ok(one);
    assert Step(yes, one, context, cmp) == Ok(two);
    assert Step(and, two, context, cmp) == Ok(last);
    assert RunFrom(t, 3, last, context, cmp) == RunFrom(t, 2, two, context, cmp) == Ok(last);
    assert RunFrom(t, 1, one, context, cmp) == RunFrom(t, 0, Stacks([], []), context, cmp) == Ok(last);
    RunFromIsRun(t, 0, Stacks([], []), context, cmp);
    assert t[0..] == t;
    assert Apply(Bin(And), last.output, cmp) == Ok(one.output);
    assert last.ops[..0] == [];
    assert PopToMark(last, cmp) == PopToMark(one, cmp);
    assert EndsOperand(t[0]) && StartsOperand(t[0 + 1]);
    AcceptedIffPrinted(t, context, cmp);
  }

  // ----- the printer adds no parenthesis too many -----

  /** The tree without the author's parentheses. */
  function Bare(e: Expr): Expr
  {
    match e
    case Atom(_) => e
    case Negate(a) => Negate(Bare(a))
    case Binop(op, l, r) => Binop(op, Bare(l), Bare(r))
    case Group(a) => Bare(a)
  }

  function Opens(t: seq<Token>): nat { multiset(t)[Open] }

  lemma OpensConcat(a: seq<Token>, b: seq<Token>, c: seq<Token>)
    ensures Opens(a + b + c) == Opens(a) + Opens(b) + Opens(c)
  {
  }

  /** How many parentheses the printer opens. */
  function Parentheses(e: Expr, p: nat): nat
  {
    match e
    case Atom(_) => 0
    case Negate(a) => Parentheses(a, 5)
    case Binop(op, l, r) =>
      var q := BinaryPrecedence(op);
      Parentheses(l, q) + Parentheses(r, q + 1) + if q < p then 1 else 0
    case Group(a) => 1 + Parentheses(a, 1)
  }

  lemma {:induction false} ParenthesesAreOpens(e: Expr, p: nat)
    ensures Parentheses(e, p) == Opens(Print(e, p))
    decreases e
  {
    match e
    case Atom(o) => assert Print(Atom(o), p) == [Leaf(o)];
    case Negate(a) => ParenthesesAreOpens(a, 5); UnaryOpens(a, p);
    case Binop(op, l, r) =>
      ParenthesesAreOpens(l, BinaryPrecedence(op));
      ParenthesesAreOpens(r, BinaryPrecedence(op) + 1);
      BinopCounts(op, l, r, p);
    case Group(a) => ParenthesesAreOpens(a, 1); UnaryOpens(a, p);
  }

  lemma BinopCounts(op: Binary, l: Expr, r: Expr, p: nat)
    requires Parentheses(l, BinaryPrecedence(op)) == Opens(Print(l, BinaryPrecedence(op)))
    requires Parentheses(r, BinaryPrecedence(op) + 1) == Opens(Print(r, BinaryPrecedence(op) + 1))
    ensures Parentheses(Binop(op, l, r), p) == Opens(Print(Binop(op, l, r), p))
  {
    BinopOpens(op, l, r, p);
  }

  lemma UnaryOpens(a: Expr, p: nat)
    ensures Opens(Print(Negate(a), p)) == Opens(Print(a, 5))
    ensures Opens(Print(Group(a), p)) == 1 + Opens(Print(a, 1))
  {
    OpensConcat([Operator(Not)], Print(a, 5), []);
    assert Print(Negate(a), p) == [Operator(Not)] + Print(a, 5) + [];
    OpensConcat([Open], Print(a, 1), [Close]);
  }

  lemma BinopOpens(op: Binary, l: Expr, r: Expr, p: nat)
    ensures var q := BinaryPrecedence(op);
      Opens(Print(Binop(op, l, r), p)) == Opens(Print(l, q)) + Opens(Print(r, q + 1)) + if q < p then 1 else 0
  {
    var q := BinaryPrecedence(op);
    var body := Print(l, q) + [Operator(Bin(op))] + Print(r, q + 1);
    OpensConcat(Print(l, q), [Operator(Bin(op))], Print(r, q + 1));
    OpensConcat([Open], body, [Close]);
  }

  lemma {:induction false} BareHasFewer(e: Expr, p: nat)
    ensures Parentheses(Bare(e), p) <= Parentheses(e, p)
    decreases e
  {
    match e
    case Atom(_) =>
    case Negate(a) => BareHasFewer(a, 5);
    case Binop(op, l, r) =>
      BareHasFewer(l, BinaryPrecedence(op));
      BareHasFewer(r, BinaryPrecedence(op) + 1);
    case Group(a) =>
      BareHasFewer(a, 1);
      assert Parentheses(Bare(a), p) <= 1 + Parentheses(Bare(a), 1);
  }

  lemma {:induction false} BareMeansTheSame(e: Expr, context: Value, cmp: Comparisons)
    ensures Meaning(Bare(e), context, cmp) == Meaning(e, context, cmp)
    decreases e
  {
    match e
    case Atom(_) =>
    case Negate(a) => BareMeansTheSame(a, context, cmp);
    case Binop(op, l, r) =>
      BareMeansTheSame(l, context, cmp);
      BareMeansTheSame(r, context, cmp);
    case Group(a) => BareMeansTheSame(a, context, cmp);
  }

  /** Of all the token lists that spell a tree, with whatever parentheses, the printed one has the fewest. */
  lemma FewestParentheses(e: Expr, written: Expr, t: seq<Token>)
    requires Print(written, 1) == t && Bare(written) == e
    ensures Opens(Print(e, 1)) <= Opens(t)
    ensures forall context, cmp :: Meaning(e, context, cmp) == Meaning(written, context, cmp)
  {
    BareHasFewer(written, 1);
    ParenthesesAreOpens(written, 1);
    ParenthesesAreOpens(e, 1);
    forall context, cmp
      ensures Meaning(e, context, cmp) == Meaning(written, context, cmp)
    {
      BareMeansTheSame(written, context, cmp);
    }
  }
}
