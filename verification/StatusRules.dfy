/** The status-rule expression language, and the two-stack evaluator of its token lists. */
module StatusRules {

  datatype Value =
    | Undefined
    | Null
    | Bool(b: bool)
    | Num(r: real)
    | NaN
    | Str(s: string)
    | Obj(props: map<string, Value>)

  predicate Truthy(v: Value)
  {
    match v
    case Undefined => false
    case Null => false
    case Bool(b) => b
    case Num(r) => r != 0.0
    case NaN => false
    case Str(s) => s != ""
    case Obj(_) => true
  }

  /** The loose comparisons coerce their operands in ways this model does not describe; they are
      parameters, so every theorem holds for all of them. `!=` is the negation of `==`. */
  datatype Comparisons = Comparisons(
    eq: (Value, Value) -> bool,
    lt: (Value, Value) -> bool,
    le: (Value, Value) -> bool,
    gt: (Value, Value) -> bool,
    ge: (Value, Value) -> bool)

  datatype Binary = Lt | Le | Gt | Ge | Eq | Ne | And | Or

  datatype Op = Not | Bin(op: Binary)

  datatype Operand =
    | Number(value: real)
    | Text(text: string)
    | Literal(lit: Value)
    | Path(parts: seq<string>)

  datatype Token =
    | Leaf(operand: Operand)
    | Operator(op: Op)
    | Open
    | Close

  datatype Result<T> = Ok(value: T) | SyntaxError

  function BinaryPrecedence(op: Binary): (p: nat)
    ensures 1 <= p <= 4
  {
    match op
    case Lt => 4
    case Le => 4
    case Gt => 4
    case Ge => 4
    case Eq => 3
    case Ne => 3
    case And => 2
    case Or => 1
  }

  function Precedence(op: Op): (p: nat)
    ensures 1 <= p <= 5
  {
    match op
    case Not => 5
    case Bin(b) => BinaryPrecedence(b)
  }

  function ApplyBinary(op: Binary, a: Value, b: Value, cmp: Comparisons): Value
  {
    match op
    case Lt => Bool(cmp.lt(a, b))
    case Le => Bool(cmp.le(a, b))
    case Gt => Bool(cmp.gt(a, b))
    case Ge => Bool(cmp.ge(a, b))
    case Eq => Bool(cmp.eq(a, b))
    case Ne => Bool(!cmp.eq(a, b))
    case And => if Truthy(a) then b else a
    case Or => if Truthy(a) then a else b
  }

  /** Own properties only: a missing step, or a step into anything but an object, is `undefined`. */
  function ResolvePath(val: Value, parts: seq<string>): Value
  {
    if parts == [] then val
    else if val.Obj? && parts[0] in val.props then ResolvePath(val.props[parts[0]], parts[1..])
    else Undefined
  }

  function OperandValue(o: Operand, context: Value): Value
  {
    match o
    case Number(r) => Num(r)
    case Text(s) => Str(s)
    case Literal(v) => v
    case Path(parts) => ResolvePath(context, parts)
  }

  // ----- the evaluator's two stacks -----

  /** An entry of the operator stack: an open parenthesis or a pending operator. */
  datatype Entry = Mark | Pending(op: Op)

  datatype Stacks = Stacks(output: seq<Value>, ops: seq<Entry>)

  function Apply(op: Op, output: seq<Value>, cmp: Comparisons): Result<seq<Value>>
  {
    var n := |output|;
    match op
    case Not =>
      if n < 1 then SyntaxError
      else Ok(output[..n - 1] + [Bool(!Truthy(output[n - 1]))])
    case Bin(b) =>
      if n < 2 then SyntaxError
      else Ok(output[..n - 2] + [ApplyBinary(b, output[n - 2], output[n - 1], cmp)])
  }

  /** Does the arriving operator force the one on top of the stack to be applied first? */
  predicate Outranks(top: Op, arriving: Op)
  {
    if arriving == Not then Precedence(top) > Precedence(arriving)
    else Precedence(top) >= Precedence(arriving)
  }

  function PopOutranking(st: Stacks, arriving: Op, cmp: Comparisons): Result<Stacks>
    decreases |st.ops|
  {
    var n := |st.ops|;
    if n == 0 || st.ops[n - 1] == Mark || !Outranks(st.ops[n - 1].op, arriving) then Ok(st)
    else
      match Apply(st.ops[n - 1].op, st.output, cmp)
      case SyntaxError => SyntaxError
      case Ok(output) => PopOutranking(Stacks(output, st.ops[..n - 1]), arriving, cmp)
  }

  /** Applies everything above the innermost open parenthesis (above the bottom, if there is none). */
  function PopToMark(st: Stacks, cmp: Comparisons): (r: Result<Stacks>)
    ensures r.Ok? && |r.value.ops| > 0 ==> r.value.ops[|r.value.ops| - 1] == Mark
    decreases |st.ops|
  {
    var n := |st.ops|;
    if n == 0 || st.ops[n - 1] == Mark then Ok(st)
    else
      match Apply(st.ops[n - 1].op, st.output, cmp)
      case SyntaxError => SyntaxError
      case Ok(output) => PopToMark(Stacks(output, st.ops[..n - 1]), cmp)
  }

  function Step(tok: Token, st: Stacks, context: Value, cmp: Comparisons): Result<Stacks>
  {
    match tok
    case Leaf(o) => Ok(st.(output := st.output + [OperandValue(o, context)]))
    case Operator(op) =>
      (match PopOutranking(st, op, cmp)
       case SyntaxError => SyntaxError
       case Ok(st') => Ok(st'.(ops := st'.ops + [Pending(op)])))
    case Open => Ok(st.(ops := st.ops + [Mark]))
    case Close =>
      match PopToMark(st, cmp)
      case SyntaxError => SyntaxError
      case Ok(st') =>
        if st'.ops == [] then SyntaxError
        else Ok(st'.(ops := st'.ops[..|st'.ops| - 1]))
  }

  function Run(tokens: seq<Token>, st: Stacks, context: Value, cmp: Comparisons): Result<Stacks>
  {
    if tokens == [] then Ok(st)
    else
      match Step(tokens[0], st, context, cmp)
      case SyntaxError => SyntaxError
      case Ok(st') => Run(tokens[1..], st', context, cmp)
  }

  function Finish(st: Stacks, cmp: Comparisons): Result<Value>
  {
    match PopToMark(st, cmp)
    case SyntaxError => SyntaxError
    case Ok(st') => if st'.ops == [] && |st'.output| == 1 then Ok(st'.output[0]) else SyntaxError
  }

  function Evaluate(tokens: seq<Token>, context: Value, cmp: Comparisons): Result<Value>
  {
    if tokens == [] then Ok(Bool(false))
    else
      match Run(tokens, Stacks([], []), context, cmp)
      case SyntaxError => SyntaxError
      case Ok(st) => Finish(st, cmp)
  }

  // ----- the evaluator as the loop it is -----

  function RunFrom(tokens: seq<Token>, i: nat, st: Stacks, context: Value, cmp: Comparisons): Result<Stacks>
    requires i <= |tokens|
    decreases |tokens| - i
  {
    if i == |tokens| then Ok(st)
    else
      match Step(tokens[i], st, context, cmp)
      case SyntaxError => SyntaxError
      case Ok(st') => RunFrom(tokens, i + 1, st', context, cmp)
  }

  lemma {:induction false} RunFromIsRun(tokens: seq<Token>, i: nat, st: Stacks, context: Value, cmp: Comparisons)
    requires i <= |tokens|
    ensures RunFrom(tokens, i, st, context, cmp) == Run(tokens[i..], st, context, cmp)
    decreases |tokens| - i
  {
    if i < |tokens| {
      assert tokens[i..][0] == tokens[i] && tokens[i..][1..] == tokens[i + 1..];
      match Step(tokens[i], st, context, cmp)
      case SyntaxError =>
      case Ok(st') => RunFromIsRun(tokens, i + 1, st', context, cmp);
    }
  }

  /** `evaluateCondition` on an already tokenized condition. */
  method EvaluateTokens(tokens: seq<Token>, context: Value, cmp: Comparisons) returns (r: Result<Value>)
    ensures r == Evaluate(tokens, context, cmp)
  {
    if |tokens| == 0 {
      return Ok(Bool(false));
    }
    var output: seq<Value>, ops: seq<Entry> := [], [];
    var i := 0;
    RunFromIsRun(tokens, 0, Stacks([], []), context, cmp);
    assert tokens[0..] == tokens;
    while i < |tokens|
      invariant 0 <= i <= |tokens|
      invariant Run(tokens, Stacks([], []), context, cmp) == RunFrom(tokens, i, Stacks(output, ops), context, cmp)
    {
      var tok := tokens[i];
      ghost var start := Stacks(output, ops);
      match tok {
        case Leaf(o) =>
          output := output + [OperandValue(o, context)];
        case Operator(op) =>
          while |ops| > 0
            invariant PopOutranking(start, op, cmp) == PopOutranking(Stacks(output, ops), op, cmp)
            decreases |ops|
          {
            var top := ops[|ops| - 1];
            if top == Mark { break; }
            if !Outranks(top.op, op) { break; }
            var applied := Apply(top.op, output, cmp);
            if applied == SyntaxError { return SyntaxError; }
            output, ops := applied.value, ops[..|ops| - 1];
          }
          ops := ops + [Pending(op)];
        case Open =>
          ops := ops + [Mark];
        case Close =>
          while |ops| > 0 && ops[|ops| - 1] != Mark
            invariant PopToMark(start, cmp) == PopToMark(Stacks(output, ops), cmp)
            decreases |ops|
          {
            var applied := Apply(ops[|ops| - 1].op, output, cmp);
            if applied == SyntaxError { return SyntaxError; }
            output, ops := applied.value, ops[..|ops| - 1];
          }
          if |ops| == 0 { return SyntaxError; }
          ops := ops[..|ops| - 1];
      }
      i := i + 1;
    }
    ghost var start := Stacks(output, ops);
    while |ops| > 0
      invariant PopToMark(start, cmp) == PopToMark(Stacks(output, ops), cmp)
      decreases |ops|
    {
      var top := ops[|ops| - 1];
      if top == Mark { return SyntaxError; }
      var applied := Apply(top.op, output, cmp);
      if applied == SyntaxError { return SyntaxError; }
      output, ops := applied.value, ops[..|ops| - 1];
    }
    if |output| != 1 { return SyntaxError; }
    return Ok(output[0]);
  }

  // ----- expressions and what they mean -----

  datatype Expr =
    | Atom(operand: Operand)
    | Negate(e: Expr)
    | Binop(op: Binary, l: Expr, r: Expr)
    | Group(e: Expr)  // parentheses the author wrote

  function Meaning(e: Expr, context: Value, cmp: Comparisons): Value
  {
    match e
    case Atom(o) => OperandValue(o, context)
    case Negate(a) => Bool(!Truthy(Meaning(a, context, cmp)))
    case Binop(op, l, r) => ApplyBinary(op, Meaning(l, context, cmp), Meaning(r, context, cmp), cmp)
    case Group(a) => Meaning(a, context, cmp)
  }

  /** The tokens of `e` where an operator of precedence at least `p` may stand unparenthesized:
      parentheses are added only where precedence or left associativity demands them. */
  function Print(e: Expr, p: nat): (t: seq<Token>)
    ensures t != []
  {
    match e
    case Atom(o) => [Leaf(o)]
    case Negate(a) => [Operator(Not)] + Print(a, 5)
    case Binop(op, l, r) =>
      var q := BinaryPrecedence(op);
      var body := Print(l, q) + [Operator(Bin(op))] + Print(r, q + 1);
      if q < p then [Open] + body + [Close] else body
    case Group(a) => [Open] + Print(a, 1) + [Close]
  }

  // ----- running the evaluator over a printed expression -----

  lemma {:induction false} RunConcat(a: seq<Token>, b: seq<Token>, st: Stacks, context: Value, cmp: Comparisons)
    ensures Run(a + b, st, context, cmp) ==
      match Run(a, st, context, cmp)
      case SyntaxError => SyntaxError
      case Ok(st') => Run(b, st', context, cmp)
    decreases |a|
  {
    if a == [] {
      assert a + b == b;
    } else {
      assert (a + b)[0] == a[0] && (a + b)[1..] == a[1..] + b;
      match Step(a[0], st, context, cmp)
      case SyntaxError =>
      case Ok(st') => RunConcat(a[1..], b, st', context, cmp);
    }
  }

  lemma RunOne(tok: Token, st: Stacks, context: Value, cmp: Comparisons)
    ensures Run([tok], st, context, cmp) == Step(tok, st, context, cmp)
  {
    match Step(tok, st, context, cmp)
    case SyntaxError =>
    case Ok(st') => assert [tok][1..] == [];
  }

  /** All of `pend` are operators of precedence at least `p`. */
  predicate AllAbove(pend: seq<Entry>, p: nat)
  {
    forall k :: 0 <= k < |pend| ==> pend[k].Pending? && Precedence(pend[k].op) >= p
  }

  function Collapse(output: seq<Value>, pend: seq<Entry>, cmp: Comparisons): Result<seq<Value>>
    requires AllAbove(pend, 1)
    decreases |pend|
  {
    var n := |pend|;
    if n == 0 then Ok(output)
    else
      match Apply(pend[n - 1].op, output, cmp)
      case SyntaxError => SyntaxError
      case Ok(output') => Collapse(output', pend[..n - 1], cmp)
  }

  /** No operator of a subexpression printed at level `p` can pop the entry below it. */
  predicate Shielded(ops: seq<Entry>, p: nat)
  {
    |ops| > 0 ==> var top := ops[|ops| - 1]; top == Mark || Precedence(top.op) < p || p == 5
  }

  lemma Assoc<T>(a: seq<T>, b: seq<T>, c: seq<T>)
    ensures a + b + c == a + (b + c)
  {
  }

  lemma SplitTop(ops: seq<Entry>, pend: seq<Entry>)
    requires pend != []
    ensures var all := ops + pend; var n := |all| - 1;
      all[n] == pend[|pend| - 1] && all[..n] == ops + pend[..|pend| - 1]
  {
  }

  lemma PopOne(st: Stacks, arriving: Op, cmp: Comparisons)
    requires st.ops != [] && st.ops[|st.ops| - 1].Pending?
    requires Apply(st.ops[|st.ops| - 1].op, st.output, cmp).Ok?
    ensures var top := st.ops[|st.ops| - 1].op;
      var st' := Stacks(Apply(top, st.output, cmp).value, st.ops[..|st.ops| - 1]);
      && (Outranks(top, arriving) ==> PopOutranking(st, arriving, cmp) == PopOutranking(st', arriving, cmp))
      && PopToMark(st, cmp) == PopToMark(st', cmp)
  {
  }

  lemma {:induction false} PopOutrankingCollapses(
    output: seq<Value>, ops: seq<Entry>, pend: seq<Entry>, op: Binary, cmp: Comparisons)
    requires AllAbove(pend, BinaryPrecedence(op)) && Collapse(output, pend, cmp).Ok?
    requires |ops| > 0 ==> ops[|ops| - 1] == Mark || Precedence(ops[|ops| - 1].op) < BinaryPrecedence(op)
    ensures PopOutranking(Stacks(output, ops + pend), Bin(op), cmp)
         == Ok(Stacks(Collapse(output, pend, cmp).value, ops))
    decreases |pend|
  {
    var n := |pend|;
    if n == 0 {
      assert ops + pend == ops;
    } else {
      SplitTop(ops, pend);
      var output' := Apply(pend[n - 1].op, output, cmp).value;
      PopOne(Stacks(output, ops + pend), Bin(op), cmp);
      PopOutrankingCollapses(output', ops, pend[..n - 1], op, cmp);
    }
  }

  lemma {:induction false} PopToMarkCollapses(
    output: seq<Value>, ops: seq<Entry>, pend: seq<Entry>, cmp: Comparisons)
    requires AllAbove(pend, 1) && Collapse(output, pend, cmp).Ok?
    requires |ops| > 0 ==> ops[|ops| - 1] == Mark
    ensures PopToMark(Stacks(output, ops + pend), cmp) == Ok(Stacks(Collapse(output, pend, cmp).value, ops))
    decreases |pend|
  {
    var n := |pend|;
    if n == 0 {
      assert ops + pend == ops;
    } else {
      SplitTop(ops, pend);
      var output' := Apply(pend[n - 1].op, output, cmp).value;
      PopOne(Stacks(output, ops + pend), Not, cmp);
      PopToMarkCollapses(output', ops, pend[..n - 1], cmp);
    }
  }

  lemma {:induction false} CollapseUnder(
    bottom: Op, output: seq<Value>, pend: seq<Entry>, cmp: Comparisons)
    requires AllAbove(pend, 1) && Collapse(output, pend, cmp).Ok?
    ensures Collapse(output, [Pending(bottom)] + pend, cmp) == Apply(bottom, Collapse(output, pend, cmp).value, cmp)
    decreases |pend|
  {
    var n := |pend|;
    var all := [Pending(bottom)] + pend;
    if n == 0 {
      assert all == [Pending(bottom)] && all[..0] == [];
      match Apply(bottom, output, cmp)
      case SyntaxError =>
      case Ok(output') => assert Collapse(output', all[..0], cmp) == Ok(output');
    } else {
      assert all[n] == pend[n - 1] && all[..n] == [Pending(bottom)] + pend[..n - 1];
      CollapseUnder(bottom, Apply(pend[n - 1].op, output, cmp).value, pend[..n - 1], cmp);
    }
  }

  /** The stack discipline. Running `tokens` leaves only operators of precedence at least `p`
      pending, and applying those leaves exactly `v` on top of what was there before. */
  ghost predicate Leaves(tokens: seq<Token>, p: nat, st: Stacks, context: Value, cmp: Comparisons, v: Value,
                         output: seq<Value>, pend: seq<Entry>)
  {
    && 1 <= p
    && AllAbove(pend, p)
    && Run(tokens, st, context, cmp) == Ok(Stacks(output, st.ops + pend))
    && Collapse(output, pend, cmp) == Ok(st.output + [v])
  }

  lemma LeavesGroup(body: seq<Token>, p: nat, st: Stacks, context: Value, cmp: Comparisons, v: Value,
                    output: seq<Value>, pend: seq<Entry>)
    requires 1 <= p
    requires Leaves(body, 1, Stacks(st.output, st.ops + [Mark]), context, cmp, v, output, pend)
    ensures Leaves([Open] + body + [Close], p, st, context, cmp, v, st.output + [v], [])
  {
    RunOne(Open, st, context, cmp);
    RunConcat([Open], body, st, context, cmp);
    RunConcat([Open] + body, [Close], st, context, cmp);
    RunOne(Close, Stacks(output, st.ops + [Mark] + pend), context, cmp);
    PopToMarkCollapses(output, st.ops + [Mark], pend, cmp);
    assert (st.ops + [Mark])[..|st.ops|] == st.ops;
    assert st.ops + [] == st.ops;
  }

  lemma LeavesNegate(body: seq<Token>, p: nat, st: Stacks, context: Value, cmp: Comparisons, v: Value,
                     output: seq<Value>, pend: seq<Entry>)
    requires 1 <= p <= 5
    requires Leaves(body, 5, Stacks(st.output, st.ops + [Pending(Not)]), context, cmp, v, output, pend)
    ensures Leaves([Operator(Not)] + body, p, st, context, cmp, Bool(!Truthy(v)), output, [Pending(Not)] + pend)
  {
    RunOne(Operator(Not), st, context, cmp);
    RunConcat([Operator(Not)], body, st, context, cmp);
    Assoc(st.ops, [Pending(Not)], pend);
    CollapseUnder(Not, output, pend, cmp);
    assert (st.output + [v])[..|st.output|] == st.output;
  }

  lemma CollapseBinop(op: Binary, below: seq<Value>, a: Value, b: Value,
                      output: seq<Value>, rest: seq<Entry>, cmp: Comparisons)
    requires AllAbove(rest, 1) && Collapse(output, rest, cmp) == Ok(below + [a] + [b])
    ensures Collapse(output, [Pending(Bin(op))] + rest, cmp) == Ok(below + [ApplyBinary(op, a, b, cmp)])
  {
    CollapseUnder(Bin(op), output, rest, cmp);
    assert (below + [a] + [b])[..|below|] == below;
  }

  /** The left operand is reduced to its value when the operator arrives. */
  lemma RunFront(op: Binary, left: seq<Token>, st: Stacks, context: Value, cmp: Comparisons, a: Value,
                 output: seq<Value>, pend: seq<Entry>)
    requires Shielded(st.ops, BinaryPrecedence(op))
    requires Leaves(left, BinaryPrecedence(op), st, context, cmp, a, output, pend)
    ensures Run(left + [Operator(Bin(op))], st, context, cmp)
         == Ok(Stacks(st.output + [a], st.ops + [Pending(Bin(op))]))
  {
    PopOutrankingCollapses(output, st.ops, pend, op, cmp);
    RunOne(Operator(Bin(op)), Stacks(output, st.ops + pend), context, cmp);
    RunConcat(left, [Operator(Bin(op))], st, context, cmp);
  }

  lemma LeavesBinop(op: Binary, front: seq<Token>, right: seq<Token>, p: nat, st: Stacks, context: Value,
                    cmp: Comparisons, a: Value, b: Value, output: seq<Value>, rest: seq<Entry>)
    requires 1 <= p <= BinaryPrecedence(op)
    requires Run(front, st, context, cmp) == Ok(Stacks(st.output + [a], st.ops + [Pending(Bin(op))]))
    requires Leaves(right, BinaryPrecedence(op) + 1, Stacks(st.output + [a], st.ops + [Pending(Bin(op))]),
                    context, cmp, b, output, rest)
    ensures Leaves(front + right, p, st, context, cmp, ApplyBinary(op, a, b, cmp), output, [Pending(Bin(op))] + rest)
  {
    RunConcat(front, right, st, context, cmp);
    Assoc(st.ops, [Pending(Bin(op))], rest);
    CollapseBinop(op, st.output, a, b, output, rest, cmp);
  }

  /** A printed expression leaves its meaning, wherever no operator below it can be popped by it. */
  lemma {:induction false} RunPrinted(e: Expr, p: nat, st: Stacks, context: Value, cmp: Comparisons)
    returns (output: seq<Value>, pend: seq<Entry>)
    requires 1 <= p <= 5 && Shielded(st.ops, p)
    ensures Leaves(Print(e, p), p, st, context, cmp, Meaning(e, context, cmp), output, pend)
    decreases e, p
  {
    var inner, rest;
    match e
    case Atom(o) =>
      output, pend := st.output + [OperandValue(o, context)], [];
      RunOne(Leaf(o), st, context, cmp);
      assert st.ops + pend == st.ops;
    case Negate(a) =>
      inner, rest := RunPrinted(a, 5, Stacks(st.output, st.ops + [Pending(Not)]), context, cmp);
      LeavesNegate(Print(a, 5), p, st, context, cmp, Meaning(a, context, cmp), inner, rest);
      output, pend := inner, [Pending(Not)] + rest;
    case Group(a) =>
      inner, rest := RunPrinted(a, 1, Stacks(st.output, st.ops + [Mark]), context, cmp);
      LeavesGroup(Print(a, 1), p, st, context, cmp, Meaning(a, context, cmp), inner, rest);
      output, pend := st.output + [Meaning(a, context, cmp)], [];
    case Binop(op, l, r) =>
      var q := BinaryPrecedence(op);
      if q < p {
        inner, rest := RunPrinted(e, 1, Stacks(st.output, st.ops + [Mark]), context, cmp);
        LeavesGroup(Print(e, 1), p, st, context, cmp, Meaning(e, context, cmp), inner, rest);
        output, pend := st.output + [Meaning(e, context, cmp)], [];
      } else {
        var a, b := Meaning(l, context, cmp), Meaning(r, context, cmp);
        inner, rest := RunPrinted(l, q, st, context, cmp);
        RunFront(op, Print(l, q), st, context, cmp, a, inner, rest);
        inner, rest := RunPrinted(r, q + 1, Stacks(st.output + [a], st.ops + [Pending(Bin(op))]), context, cmp);
        LeavesBinop(op, Print(l, q) + [Operator(Bin(op))], Print(r, q + 1), p, st, context, cmp, a, b, inner, rest);
        output, pend := inner, [Pending(Bin(op))] + rest;
      }
  }

  /** The evaluator computes the meaning of every expression from its printed tokens. */
  lemma EvaluatesPrinted(e: Expr, context: Value, cmp: Comparisons)
    ensures Evaluate(Print(e, 1), context, cmp) == Ok(Meaning(e, context, cmp))
  {
    var output, pend := RunPrinted(e, 1, Stacks([], []), context, cmp);
    PopToMarkCollapses(output, [], pend, cmp);
    assert [] + pend == pend;
  }
}
