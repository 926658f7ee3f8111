/**
 * The reduction steps of `sy._dijkstraParse` in `src/parse.js`, stated as
 * functions on the remaining text and the contents of the two stacks. The
 * imperative parser in module `Parser` is proved to compute exactly these.
 */
module ShuntingYard {
  import opened Results
  import opened Values
  import opened Operators
  import opened Exprs
  import opened Chars
  import opened Flatten

  /** The node `new sy.Expr(new sy.Symbol(c))` for a letter `c`. */
  function SymbolLeaf(c: char): Expr
  {
    Expr(Sym(Symbol([c])), [])
  }

  /** The node `new sy.Expr(x)` for a number `x`. */
  function NumberLeaf(x: real): Expr
  {
    Expr(Num(x), [])
  }

  /** Both leaves are what the validating constructor builds for their values. */
  lemma LeavesAreConstructed(c: char, x: real)
    ensures Construct(SymbolObject(Symbol([c])), None) == Ok(SymbolLeaf(c))
    ensures Construct(Number(x), None) == Ok(NumberLeaf(x))
  {
  }

  /** The node value stored for an operator character is that character. */
  lemma OperatorAtom(c: char)
    ensures IsOperatorChar(c) ==> AtomOf(Text([c])) == Op(c)
  {
    if IsOperatorChar(c) {
      var a := AtomOf(Text([c]));
      assert [c] == [a.op];
      assert [c][0] == c;
    }
  }

  /**
   * `sy._popOper(output, opStack)` on the contents of the two stacks: pop
   * the operator (`undefined` from an empty stack), pop the right operand
   * (`undefined` from an empty output); if the output is then empty build a
   * one-operand node, otherwise pop the left operand and build a two-operand
   * node; push the node. The constructor's exceptions become errors.
   */
  function PopOperSpec(output: seq<Expr>, ops: seq<char>): (r: Result<(seq<Expr>, seq<char>)>)
    ensures r.Ok? <==> ops != [] && output != [] && IsOperatorChar(ops[|ops| - 1])
    ensures r.Ok? ==> r.value.1 == ops[..|ops| - 1]
    ensures r.Ok? && |output| == 1 ==>
      r.value.0 == [Expr(Op(ops[|ops| - 1]), [output[0]])]
    ensures r.Ok? && |output| >= 2 ==>
      r.value.0 == output[..|output| - 2] + [Expr(Op(ops[|ops| - 1]), [output[|output| - 2], output[|output| - 1]])]
    ensures ops != [] && output == [] && IsOperatorChar(ops[|ops| - 1]) ==> r == Err(OperandsNotExpressions)
  {
    var op := if ops == [] then Undefined else Text([ops[|ops| - 1]]);
    var opsLeft := if ops == [] then [] else ops[..|ops| - 1];
    var operand2 := if output == [] then NotAnExpr(Undefined) else AnExpr(output[|output| - 1]);
    var rest := if output == [] then [] else output[..|output| - 1];
    var operands := if rest == [] then [operand2] else [AnExpr(rest[|rest| - 1]), operand2];
    var below := if rest == [] then [] else rest[..|rest| - 1];
    var built := Construct(op, Some(operands));
    PopOperFacts(output, ops, op, operands, built);
    if built.Err? then Err(built.error) else Ok((below + [built.value], opsLeft))
  }

  lemma PopOperFacts(output: seq<Expr>, ops: seq<char>, op: Value, operands: seq<Arg>, built: Result<Expr>)
    requires op == if ops == [] then Undefined else Text([ops[|ops| - 1]])
    requires operands == if |output| <= 1 then [if output == [] then NotAnExpr(Undefined) else AnExpr(output[0])]
      else [AnExpr(output[|output| - 2]), AnExpr(output[|output| - 1])]
    requires built == Construct(op, Some(operands))
    ensures built.Ok? <==> ops != [] && output != [] && IsOperatorChar(ops[|ops| - 1])
    ensures built.Ok? && |output| == 1 ==> built.value == Expr(Op(ops[|ops| - 1]), [output[0]])
    ensures built.Ok? && |output| >= 2 ==>
      built.value == Expr(Op(ops[|ops| - 1]), [output[|output| - 2], output[|output| - 1]])
    ensures ops != [] && output == [] && IsOperatorChar(ops[|ops| - 1]) ==> built == Err(OperandsNotExpressions)
  {
    ConstructErrors(op, Some(operands));
    if built.Ok? {
      assert IsOperator(op) && ops != [];
      ConstructStores(op, Some(operands));
      OperatorAtom(ops[|ops| - 1]);
      assert AtomOf(op) == Op(ops[|ops| - 1]);
      var es := ExprsOf(operands);
      assert |es| == |operands|;
      assert operands[0] == AnExpr(es[0]);
      if |output| >= 2 {
        assert operands[1] == AnExpr(es[1]);
        assert es == [output[|output| - 2], output[|output| - 1]];
      } else {
        assert es == [output[0]];
      }
    }
  }

  /**
   * The `)` branch: `popOper` while the operator stack is non-empty and its
   * top is not `(`; then fail on an empty stack, or pop the `(`.
   */
  function ReduceToParen(output: seq<Expr>, ops: seq<char>): (r: Result<(seq<Expr>, seq<char>)>)
    decreases |ops|
  {
    if ops != [] && ops[|ops| - 1] != '(' then
      match PopOperSpec(output, ops)
      case Err(e) => Err(e)
      case Ok((o, s)) => ReduceToParen(o, s)
    else if ops == [] then Err(MismatchedParentheses)
    else Ok((output, ops[..|ops| - 1]))
  }

  /**
   * The operator branch before the push: `popOper` while the operator stack
   * is non-empty and the incoming operator's precedence is at most the top's.
   */
  function ReduceForOperator(newOp: char, output: seq<Expr>, ops: seq<char>): (r: Result<(seq<Expr>, seq<char>)>)
    decreases |ops|
  {
    if ops != [] && PrecedenceAtMost(newOp, ops[|ops| - 1]) then
      match PopOperSpec(output, ops)
      case Err(e) => Err(e)
      case Ok((o, s)) => ReduceForOperator(newOp, o, s)
    else Ok((output, ops))
  }

  /**
   * The end of `_dijkstraParse`: `popOper` until the operator stack is
   * empty, failing on a `(`; then fail on more than one tree, and return
   * `output.pop()`, which is `undefined` (`None`) for an empty output.
   */
  function Finish(output: seq<Expr>, ops: seq<char>): (r: Result<Option<Expr>>)
    decreases |ops|
  {
    if ops != [] then
      if ops[|ops| - 1] == '(' then Err(MismatchedParentheses)
      else
        match PopOperSpec(output, ops)
        case Err(e) => Err(e)
        case Ok((o, s)) => Finish(o, s)
    else if |output| > 1 then Err(MalformedExpression)
    else if output == [] then Ok(None)
    else Ok(Some(output[0]))
  }

  /**
   * The termination measure of the main loop. A letter may be followed by an
   * inserted `*`, and so may a number run, so a letter outweighs `*` and every
   * other character outweighs it too.
   */
  function CharWeight(c: char): nat
  {
    if IsAlpha(c) then 3 else if c == '*' then 1 else 2
  }

  function Weight(s: string): nat
  {
    if s == [] then 0 else CharWeight(s[0]) + Weight(s[1..])
  }

  lemma {:induction false} WeightAppend(a: string, b: string)
    ensures Weight(a + b) == Weight(a) + Weight(b)
  {
    if a == [] {
      assert a + b == b;
    } else {
      assert (a + b)[0] == a[0] && (a + b)[1..] == a[1..] + b;
      WeightAppend(a[1..], b);
    }
  }

  /** A non-empty run of digits and points weighs at least 2. */
  lemma {:induction false} RunWeight(s: string, j: nat)
    requires 0 < j <= |s| && forall k | 0 <= k < j :: IsDigitOrDecPoint(s[k])
    ensures Weight(s) >= 2 + Weight(s[j..])
  {
    assert s[..j] + s[j..] == s;
    WeightAppend(s[..j], s[j..]);
    assert Weight(s[..j]) >= 2 by {
      assert s[..j][0] == s[0];
    }
  }

  /**
   * The text after a letter or a number run, with the implicit `*` that
   * `insertInStr` adds in front of a following letter.
   */
  function AfterTerm(next: string): (r: string)
    ensures Weight(r) <= 1 + Weight(next)
  {
    if next != [] && IsAlpha(next[0]) then "*" + next else next
  }

  /**
   * The main loop of `sy._dijkstraParse` from the remaining text `rest`, with
   * the output and operator stacks holding `output` and `ops` (tops last).
   */
  function Run(rest: string, output: seq<Expr>, ops: seq<char>): (r: Result<Option<Expr>>)
    decreases Weight(rest)
  {
    if rest == [] then Finish(output, ops)
    else
      var c := rest[0];
      if IsAlpha(c) then
        Run(AfterTerm(rest[1..]), output + [SymbolLeaf(c)], ops)
      else if IsDigitOrDecPoint(c) then
        var j := RunEnd(rest, 0);
        RunWeight(rest, j);
        var numString := rest[..j];
        if !IsNumeral(numString) then Err(InvalidNumber(numString))
        else Run(AfterTerm(rest[j..]), output + [NumberLeaf(NumberValue(numString))], ops)
      else if c == '(' then
        Run(rest[1..], output, ops + ['('])
      else if c == ')' then
        match ReduceToParen(output, ops)
        case Err(e) => Err(e)
        case Ok((o, s)) => Run(rest[1..], o, s)
      else if IsOperatorChar(c) then
        match ReduceForOperator(c, output, ops)
        case Err(e) => Err(e)
        case Ok((o, s)) => Run(rest[1..], o, s + [c])
      else Err(MalformedExpression)
  }

  /** `sy._dijkstraParse(exprStr)`: the main loop from the whole text and two empty stacks. */
  function DijkstraSpec(text: string): Result<Option<Expr>>
  {
    Run(text, [], [])
  }

  /** The letter branch of the main loop. */
  lemma RunLetter(rest: string, output: seq<Expr>, ops: seq<char>)
    requires rest != [] && IsAlpha(rest[0])
    ensures Run(rest, output, ops) == Run(AfterTerm(rest[1..]), output + [SymbolLeaf(rest[0])], ops)
    ensures Weight(AfterTerm(rest[1..])) < Weight(rest)
  {
  }

  /** The number branch of the main loop. */
  lemma RunNumber(rest: string, output: seq<Expr>, ops: seq<char>)
    requires rest != [] && IsDigitOrDecPoint(rest[0])
    ensures var j := RunEnd(rest, 0);
      Run(rest, output, ops)
        == (if !IsNumeral(rest[..j]) then Err(InvalidNumber(rest[..j]))
            else Run(AfterTerm(rest[j..]), output + [NumberLeaf(NumberValue(rest[..j]))], ops))
      && Weight(AfterTerm(rest[j..])) < Weight(rest)
  {
    RunWeight(rest, RunEnd(rest, 0));
  }

  /** The `(`, `)` and operator branches of the main loop, and its exit. */
  lemma RunOther(rest: string, output: seq<Expr>, ops: seq<char>)
    requires rest != [] && !IsAlpha(rest[0]) && !IsDigitOrDecPoint(rest[0])
    ensures Weight(rest[1..]) < Weight(rest)
    ensures rest[0] == '(' ==> Run(rest, output, ops) == Run(rest[1..], output, ops + ['('])
    ensures rest[0] == ')' ==>
      (Run(rest, output, ops) ==
         match ReduceToParen(output, ops)
         case Err(e) => Err(e)
         case Ok((o, s)) => Run(rest[1..], o, s))
    ensures rest[0] != '(' && rest[0] != ')' && IsOperatorChar(rest[0]) ==>
      (Run(rest, output, ops) ==
         match ReduceForOperator(rest[0], output, ops)
         case Err(e) => Err(e)
         case Ok((o, s)) => Run(rest[1..], o, s + [rest[0]]))
    ensures rest[0] != '(' && rest[0] != ')' && !IsOperatorChar(rest[0]) ==> Run(rest, output, ops) == Err(MalformedExpression)
  {
  }

  /**
   * `sy.parse(exprStr)`: strip whitespace, run the shunting-yard loop, then
   * flatten. A run that leaves no tree hands `undefined` to `_flattenExpr`,
   * which fails reading its `operands`.
   */
  function ParseSpec(input: string): Result<Expr>
  {
    match DijkstraSpec(StripWhitespace(input))
    case Err(e) => Err(e)
    case Ok(None) => Err(NoExpression)
    case Ok(Some(tree)) => Ok(FlattenSpec(tree))
  }
}
