/** `sy._popOper`, `sy._dijkstraParse` and `sy.parse` of `src/parse.js`, over two `Stack` objects. */
module Parser {
  import opened Results
  import opened Values
  import opened Operators
  import opened Exprs
  import opened Chars
  import opened Stacks
  import opened ShuntingYard
  import opened Flatten

  /**
   * `sy._popOper(output, opStack)`: the stacks end as `PopOperSpec` says, or
   * the constructor's exception is returned as an error.
   */
  method PopOper(output: Stack<Expr>, opStack: Stack<char>) returns (r: Result<()>)
    modifies output, opStack
    ensures var spec := PopOperSpec(old(output.stack), old(opStack.stack));
      (r.Ok? <==> spec.Ok?)
      && (spec.Err? ==> r.error == spec.error)
      && (spec.Ok? ==> output.stack == spec.value.0 && opStack.stack == spec.value.1)
  {
    var op := opStack.Pop();
    var operand2 := output.Pop();
    var opValue := if op.Some? then Text([op.value]) else Undefined;
    var arg2 := if operand2.Some? then AnExpr(operand2.value) else NotAnExpr(Undefined);
    if output.Length() == 0 {
      var node := NewExpr(opValue, Some([arg2]));
      if node.Err? {
        return Err(node.error);
      }
      var _ := output.Push(node.value);
      return Ok(());
    }
    var operand1 := output.Pop();
    var node := NewExpr(opValue, Some([AnExpr(operand1.value), arg2]));
    if node.Err? {
      return Err(node.error);
    }
    var _ := output.Push(node.value);
    r := Ok(());
  }

  /** `insertInStr(exprStr, index, '*')` puts the `*` in front of the unread text. */
  lemma InsertStar(s: string, index: nat)
    requires index <= |s|
    ensures InsertInStr(s, index, "*")[index..] == "*" + s[index..]
  {
    var t := InsertInStr(s, index, "*");
    assert t[index..] == t[index..index + 1] + t[index + 1..];
  }

  /** The inner `while` of the number branch: collect the maximal run of digits and points. */
  method ScanNumber(exprStr: string, start: nat) returns (numString: string, index: nat)
    requires start <= |exprStr|
    ensures index == start + RunEnd(exprStr[start..], 0) && numString == exprStr[start..index]
  {
    index := start;
    numString := "";
    while index < |exprStr| && IsDigitOrDecPoint(exprStr[index])
      invariant start <= index <= |exprStr|
      invariant numString == exprStr[start..index]
      invariant forall k | start <= k < index :: IsDigitOrDecPoint(exprStr[k])
    {
      numString := numString + [exprStr[index]];
      index := index + 1;
    }
    RunEndUnique(exprStr[start..], 0, index - start);
  }

  /** The `)` branch's `while` loop and the pop of the matching `(`. */
  method CloseParen(output: Stack<Expr>, opStack: Stack<char>) returns (r: Result<()>)
    modifies output, opStack
    ensures var spec := ReduceToParen(old(output.stack), old(opStack.stack));
      (r.Ok? <==> spec.Ok?)
      && (spec.Err? ==> r.error == spec.error)
      && (spec.Ok? ==> output.stack == spec.value.0 && opStack.stack == spec.value.1)
  {
    while opStack.Length() > 0 && opStack.Peek() != Some('(')
      invariant ReduceToParen(output.stack, opStack.stack) == ReduceToParen(old(output.stack), old(opStack.stack))
      decreases |opStack.stack|
    {
      var step := PopOper(output, opStack);
      if step.Err? {
        return Err(step.error);
      }
    }
    if opStack.Length() == 0 {
      return Err(MismatchedParentheses);
    }
    var _ := opStack.Pop();
    r := Ok(());
  }

  /** The operator branch's `while` loop, which reduces before `newOp` is pushed. */
  method ReduceBefore(newOp: char, output: Stack<Expr>, opStack: Stack<char>) returns (r: Result<()>)
    modifies output, opStack
    ensures var spec := ReduceForOperator(newOp, old(output.stack), old(opStack.stack));
      (r.Ok? <==> spec.Ok?)
      && (spec.Err? ==> r.error == spec.error)
      && (spec.Ok? ==> output.stack == spec.value.0 && opStack.stack == spec.value.1)
  {
    while opStack.Length() > 0 && PrecedenceAtMost(newOp, opStack.Peek().value)
      invariant ReduceForOperator(newOp, output.stack, opStack.stack)
        == ReduceForOperator(newOp, old(output.stack), old(opStack.stack))
      decreases |opStack.stack|
    {
      var step := PopOper(output, opStack);
      if step.Err? {
        return Err(step.error);
      }
    }
    r := Ok(());
  }

  /** The closing `while` loop of `_dijkstraParse`, the count check and the final `output.pop()`. */
  method FinishStacks(output: Stack<Expr>, opStack: Stack<char>) returns (r: Result<Option<Expr>>)
    modifies output, opStack
    ensures r == Finish(old(output.stack), old(opStack.stack))
  {
    while opStack.Length() > 0
      invariant Finish(output.stack, opStack.stack) == Finish(old(output.stack), old(opStack.stack))
      decreases |opStack.stack|
    {
      if opStack.Peek() == Some('(') {
        return Err(MismatchedParentheses);
      }
      var step := PopOper(output, opStack);
      if step.Err? {
        return Err(step.error);
      }
    }
    if output.Length() > 1 {
      return Err(MalformedExpression);
    }
    var top := output.Pop();
    r := Ok(top);
  }

  /**
   * `sy._dijkstraParse(exprStr)`: the `while` loop over `index`, which
   * reassigns `exprStr` when it inserts an implicit `*`, with an output
   * stack of trees and a stack of operator characters.
   */
  method DijkstraParse(text: string) returns (r: Result<Option<Expr>>)
    ensures r == DijkstraSpec(text)
  {
    var output := new Stack<Expr>();
    var opStack := new Stack<char>();
    var exprStr := text;
    var index := 0;
    while index < |exprStr|
      invariant index <= |exprStr|
      invariant Run(exprStr[index..], output.stack, opStack.stack) == DijkstraSpec(text)
      decreases Weight(exprStr[index..])
    {
      var rest := exprStr[index..];
      assert rest[0] == exprStr[index] && rest[1..] == exprStr[index + 1..];
      var c := exprStr[index];
      if IsAlpha(c) {
        RunLetter(rest, output.stack, opStack.stack);
        var _ := output.Push(SymbolLeaf(c));
        index := index + 1;
        if index < |exprStr| && IsAlpha(exprStr[index]) {
          InsertStar(exprStr, index);
          exprStr := InsertInStr(exprStr, index, "*");
        }
        assert exprStr[index..] == AfterTerm(rest[1..]);
      } else if IsDigitOrDecPoint(c) {
        RunNumber(rest, output.stack, opStack.stack);
        var start := index;
        var numString;
        numString, index := ScanNumber(exprStr, index);
        assert numString == rest[..RunEnd(rest, 0)];
        assert exprStr[index..] == rest[index - start..];
        if index < |exprStr| && IsAlpha(exprStr[index]) {
          InsertStar(exprStr, index);
          exprStr := InsertInStr(exprStr, index, "*");
        }
        assert exprStr[index..] == AfterTerm(rest[index - start..]);
        if !IsNumeral(numString) {
          return Err(InvalidNumber(numString));
        }
        var _ := output.Push(NumberLeaf(NumberValue(numString)));
      } else if c == '(' {
        RunOther(rest, output.stack, opStack.stack);
        var _ := opStack.Push(c);
        index := index + 1;
      } else if c == ')' {
        RunOther(rest, output.stack, opStack.stack);
        var step := CloseParen(output, opStack);
        if step.Err? {
          return Err(step.error);
        }
        index := index + 1;
      } else if IsOperatorChar(c) {
        RunOther(rest, output.stack, opStack.stack);
        var step := ReduceBefore(c, output, opStack);
        if step.Err? {
          return Err(step.error);
        }
        var _ := opStack.Push(c);
        index := index + 1;
      } else {
        RunOther(rest, output.stack, opStack.stack);
        return Err(MalformedExpression);
      }
    }
    r := FinishStacks(output, opStack);
  }

  /** `sy.parse(exprStr)`. */
  method Parse(exprStr: string) returns (r: Result<Expr>)
    ensures r == ParseSpec(exprStr)
  {
    var stripped := StripWhitespace(exprStr);
    var tree := DijkstraParse(stripped);
    if tree.Err? {
      return Err(tree.error);
    }
    if tree.value.None? {
      return Err(NoExpression);
    }
    var flat := FlattenExpr(tree.value.value);
    r := Ok(flat);
  }
}
