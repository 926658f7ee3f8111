/** What the shunting-yard loop and `sy.parse` guarantee about the trees they build. */
module ParseFacts {
  import opened Results
  import opened Values
  import opened Operators
  import opened Exprs
  import opened Chars
  import opened Flatten
  import opened ShuntingYard

  /** The leaf value the parser makes of a letter. */
  function SymbolOf(c: char): Atom
  {
    Sym(Symbol([c]))
  }

  lemma SymbolOfInjective(c: char, d: char)
    ensures SymbolOf(c) == SymbolOf(d) <==> c == d
  {
    if SymbolOf(c) == SymbolOf(d) {
      assert [c][0] == [d][0];
    }
  }

  lemma LeavesOfSmall(x: Expr, y: Expr)
    ensures LeavesOf([x]) == Leaves(x)
    ensures LeavesOf([x, y]) == Leaves(x) + Leaves(y)
  {
    assert [x][1..] == [];
    assert [x, y][1..] == [y];
    assert [y][1..] == [];
  }

  // ---------------------------------------------------------------------------
  // Well-formed trees

  /** `popOper` builds a well-formed node from well-formed operands. */
  lemma PopOperKeepsValid(output: seq<Expr>, ops: seq<char>)
    requires AllValid(output) && PopOperSpec(output, ops).Ok?
    ensures AllValid(PopOperSpec(output, ops).value.0)
  {
    var o := PopOperSpec(output, ops).value.0;
    var node := o[|o| - 1];
    assert Valid(node) by {
      forall i | 0 <= i < |node.operands|
        ensures Valid(node.operands[i])
      {
        if |output| >= 2 {
          assert node.operands[i] == output[|output| - 2 + i];
        } else {
          assert node.operands[i] == output[0];
        }
      }
    }
    forall i | 0 <= i < |o|
      ensures Valid(o[i])
    {
      if i < |o| - 1 {
        assert o[i] == output[i];
      }
    }
  }

  lemma {:induction false} ReduceToParenValid(output: seq<Expr>, ops: seq<char>)
    requires AllValid(output) && ReduceToParen(output, ops).Ok?
    ensures AllValid(ReduceToParen(output, ops).value.0)
    decreases |ops|
  {
    if ops != [] && ops[|ops| - 1] != '(' {
      PopOperKeepsValid(output, ops);
      var next := PopOperSpec(output, ops).value;
      ReduceToParenValid(next.0, next.1);
    }
  }

  lemma {:induction false} ReduceForOperatorValid(newOp: char, output: seq<Expr>, ops: seq<char>)
    requires AllValid(output) && ReduceForOperator(newOp, output, ops).Ok?
    ensures AllValid(ReduceForOperator(newOp, output, ops).value.0)
    decreases |ops|
  {
    if ops != [] && PrecedenceAtMost(newOp, ops[|ops| - 1]) {
      PopOperKeepsValid(output, ops);
      var next := PopOperSpec(output, ops).value;
      ReduceForOperatorValid(newOp, next.0, next.1);
    }
  }

  lemma {:induction false} FinishValid(output: seq<Expr>, ops: seq<char>)
    requires AllValid(output) && Finish(output, ops).Ok? && Finish(output, ops).value.Some?
    ensures Valid(Finish(output, ops).value.value)
    decreases |ops|
  {
    if ops != [] {
      PopOperKeepsValid(output, ops);
      var next := PopOperSpec(output, ops).value;
      FinishValid(next.0, next.1);
    }
  }

  lemma AppendLeafValid(output: seq<Expr>, leaf: Expr)
    requires AllValid(output) && !leaf.value.Op? && leaf.operands == []
    ensures AllValid(output + [leaf])
  {
    assert Valid(leaf);
    forall i | 0 <= i < |output + [leaf]|
      ensures Valid((output + [leaf])[i])
    {
      if i < |output| {
        assert (output + [leaf])[i] == output[i];
      }
    }
  }

  /** Every tree the main loop returns is well formed. */
  lemma {:induction false} RunValid(rest: string, output: seq<Expr>, ops: seq<char>)
    requires AllValid(output)
    requires Run(rest, output, ops).Ok? && Run(rest, output, ops).value.Some?
    ensures Valid(Run(rest, output, ops).value.value)
    decreases Weight(rest)
  {
    if rest == [] {
      FinishValid(output, ops);
    } else if IsAlpha(rest[0]) {
      RunLetter(rest, output, ops);
      AppendLeafValid(output, SymbolLeaf(rest[0]));
      RunValid(AfterTerm(rest[1..]), output + [SymbolLeaf(rest[0])], ops);
    } else if IsDigitOrDecPoint(rest[0]) {
      RunNumber(rest, output, ops);
      var j := RunEnd(rest, 0);
      AppendLeafValid(output, NumberLeaf(NumberValue(rest[..j])));
      RunValid(AfterTerm(rest[j..]), output + [NumberLeaf(NumberValue(rest[..j]))], ops);
    } else {
      RunOther(rest, output, ops);
      if rest[0] == '(' {
        RunValid(rest[1..], output, ops + ['(']);
      } else if rest[0] == ')' {
        ReduceToParenValid(output, ops);
        var next := ReduceToParen(output, ops).value;
        RunValid(rest[1..], next.0, next.1);
      } else {
        ReduceForOperatorValid(rest[0], output, ops);
        var next := ReduceForOperator(rest[0], output, ops).value;
        RunValid(rest[1..], next.0, next.1 + [rest[0]]);
      }
    }
  }

  /** `sy.parse` returns only well-formed trees. */
  lemma ParseValid(input: string)
    requires ParseSpec(input).Ok?
    ensures Valid(ParseSpec(input).value)
  {
    var tree := DijkstraSpec(StripWhitespace(input)).value.value;
    RunValid(StripWhitespace(input), [], []);
    FlattenPreserves(tree);
  }

  // ---------------------------------------------------------------------------
  // Leaves

  /** Replacing the top trees of a stack by one operator node over them keeps the leaves. */
  lemma NodeKeepsLeaves(below: seq<Expr>, op: char, xs: seq<Expr>)
    ensures LeavesOf(below + [Expr(Op(op), xs)]) == LeavesOf(below + xs)
  {
    var node := Expr(Op(op), xs);
    LeavesOfAppend(below, [node]);
    LeavesOfAppend(below, xs);
    LeavesOfSmall(node, node);
  }

  /** `popOper` moves trees into a new node: the leaves on the output stack stay the same. */
  lemma PopOperKeepsLeaves(output: seq<Expr>, ops: seq<char>)
    requires PopOperSpec(output, ops).Ok?
    ensures LeavesOf(PopOperSpec(output, ops).value.0) == LeavesOf(output)
  {
    var op := ops[|ops| - 1];
    var n := |output|;
    if n == 1 {
      assert output == [output[0]];
      NodeKeepsLeaves([], op, output);
      assert [] + output == output;
    } else {
      var xs := [output[n - 2], output[n - 1]];
      NodeKeepsLeaves(output[..n - 2], op, xs);
      assert output[..n - 2] + xs == output;
    }
  }

  lemma {:induction false} ReduceToParenLeaves(output: seq<Expr>, ops: seq<char>)
    requires ReduceToParen(output, ops).Ok?
    ensures LeavesOf(ReduceToParen(output, ops).value.0) == LeavesOf(output)
    decreases |ops|
  {
    if ops != [] && ops[|ops| - 1] != '(' {
      PopOperKeepsLeaves(output, ops);
      var next := PopOperSpec(output, ops).value;
      ReduceToParenLeaves(next.0, next.1);
    }
  }

  lemma {:induction false} ReduceForOperatorLeaves(newOp: char, output: seq<Expr>, ops: seq<char>)
    requires ReduceForOperator(newOp, output, ops).Ok?
    ensures LeavesOf(ReduceForOperator(newOp, output, ops).value.0) == LeavesOf(output)
    decreases |ops|
  {
    if ops != [] && PrecedenceAtMost(newOp, ops[|ops| - 1]) {
      PopOperKeepsLeaves(output, ops);
      var next := PopOperSpec(output, ops).value;
      ReduceForOperatorLeaves(newOp, next.0, next.1);
    }
  }

  lemma {:induction false} FinishLeaves(output: seq<Expr>, ops: seq<char>)
    requires Finish(output, ops).Ok? && Finish(output, ops).value.Some?
    ensures Leaves(Finish(output, ops).value.value) == LeavesOf(output)
    decreases |ops|
  {
    if ops != [] {
      PopOperKeepsLeaves(output, ops);
      var next := PopOperSpec(output, ops).value;
      FinishLeaves(next.0, next.1);
    } else {
      LeavesOfSmall(output[0], output[0]);
      assert output == [output[0]];
    }
  }

  /** Pushing a leaf adds its value to the leaves on the output stack. */
  lemma PushLeafLeaves(output: seq<Expr>, a: Atom)
    requires !a.Op?
    ensures LeavesOf(output + [Expr(a, [])]) == LeavesOf(output) + multiset{a}
  {
    LeavesOfAppend(output, [Expr(a, [])]);
    LeavesOfSmall(Expr(a, []), Expr(a, []));
    assert LeavesOf([]) == multiset{};
  }

  /** Inserting the implicit `*` changes the count of no other character. */
  lemma AfterTermKeeps(next: string, c: char)
    requires c != '*'
    ensures multiset(AfterTerm(next))[c] == multiset(next)[c]
  {
    if next != [] && IsAlpha(next[0]) {
      assert multiset("*" + next) == multiset{'*'} + multiset(next);
    }
  }

  /** A run of digits and points holds no other character. */
  lemma NoneInRun(run: string, c: char)
    requires !IsDigitOrDecPoint(c) && forall k | 0 <= k < |run| :: IsDigitOrDecPoint(run[k])
    ensures multiset(run)[c] == 0
  {
  }

  /** The count kept by `RunLetters` across the letter branch. */
  lemma LetterStepCount(rest: string, output: seq<Expr>, c: char)
    requires rest != [] && IsAlpha(rest[0]) && IsAlpha(c)
    ensures LeavesOf(output + [SymbolLeaf(rest[0])])[SymbolOf(c)] + multiset(AfterTerm(rest[1..]))[c]
      == LeavesOf(output)[SymbolOf(c)] + multiset(rest)[c]
  {
    assert rest == [rest[0]] + rest[1..];
    assert multiset(rest) == multiset{rest[0]} + multiset(rest[1..]);
    PushLeafLeaves(output, SymbolOf(rest[0]));
    AfterTermKeeps(rest[1..], c);
    SymbolOfInjective(rest[0], c);
  }

  /** The count kept by `RunLetters` across the number branch. */
  lemma NumberStepCount(rest: string, j: nat, output: seq<Expr>, x: real, c: char)
    requires j <= |rest| && forall k | 0 <= k < j :: IsDigitOrDecPoint(rest[k])
    requires IsAlpha(c)
    ensures LeavesOf(output + [NumberLeaf(x)])[SymbolOf(c)] + multiset(AfterTerm(rest[j..]))[c]
      == LeavesOf(output)[SymbolOf(c)] + multiset(rest)[c]
  {
    PushLeafLeaves(output, Num(x));
    AfterTermKeeps(rest[j..], c);
    RunHoldsNoLetter(rest, j, c);
  }

  /** Skipping a run of digits and points leaves the count of a letter unchanged. */
  lemma RunHoldsNoLetter(rest: string, j: nat, c: char)
    requires j <= |rest| && forall k | 0 <= k < j :: IsDigitOrDecPoint(rest[k])
    requires IsAlpha(c)
    ensures multiset(rest[j..])[c] == multiset(rest)[c]
  {
    assert rest == rest[..j] + rest[j..];
    assert multiset(rest) == multiset(rest[..j]) + multiset(rest[j..]);
    NoneInRun(rest[..j], c);
  }

  /** A bracket or operator is not a letter. */
  lemma OtherStepCount(rest: string, c: char)
    requires rest != [] && !IsAlpha(rest[0]) && IsAlpha(c)
    ensures multiset(rest[1..])[c] == multiset(rest)[c]
  {
    assert rest == [rest[0]] + rest[1..];
    assert multiset(rest) == multiset{rest[0]} + multiset(rest[1..]);
  }

  /**
   * Each letter still to be read ends up as one symbol leaf of the returned
   * tree: its count among the leaves is the count on the output stack plus
   * its count in the unread text.
   */
  lemma {:induction false} RunLetters(rest: string, output: seq<Expr>, ops: seq<char>, c: char)
    requires IsAlpha(c)
    requires Run(rest, output, ops).Ok? && Run(rest, output, ops).value.Some?
    ensures Leaves(Run(rest, output, ops).value.value)[SymbolOf(c)] == LeavesOf(output)[SymbolOf(c)] + multiset(rest)[c]
    decreases Weight(rest)
  {
    if rest == [] {
      FinishLeaves(output, ops);
    } else if IsAlpha(rest[0]) {
      RunLetter(rest, output, ops);
      RunLetters(AfterTerm(rest[1..]), output + [SymbolLeaf(rest[0])], ops, c);
      LetterStepCount(rest, output, c);
    } else if IsDigitOrDecPoint(rest[0]) {
      RunNumber(rest, output, ops);
      var j := RunEnd(rest, 0);
      RunLetters(AfterTerm(rest[j..]), output + [NumberLeaf(NumberValue(rest[..j]))], ops, c);
      NumberStepCount(rest, j, output, NumberValue(rest[..j]), c);
    } else {
      RunOther(rest, output, ops);
      OtherStepCount(rest, c);
      if rest[0] == '(' {
        RunLetters(rest[1..], output, ops + ['('], c);
      } else if rest[0] == ')' {
        ReduceToParenLeaves(output, ops);
        var next := ReduceToParen(output, ops).value;
        RunLetters(rest[1..], next.0, next.1, c);
      } else {
        ReduceForOperatorLeaves(rest[0], output, ops);
        var next := ReduceForOperator(rest[0], output, ops).value;
        RunLetters(rest[1..], next.0, next.1 + [rest[0]], c);
      }
    }
  }

  /**
   * Every letter of the input becomes its own one-letter symbol leaf of the
   * parsed tree: a letter occurring k times yields exactly k leaves with
   * that symbol, so `xy` holds the two symbols `x` and `y`, not `xy`.
   */
  lemma ParseKeepsLetters(input: string, c: char)
    requires IsAlpha(c) && ParseSpec(input).Ok?
    ensures Leaves(ParseSpec(input).value)[SymbolOf(c)] == multiset(input)[c]
  {
    var stripped := StripWhitespace(input);
    var tree := DijkstraSpec(stripped).value.value;
    RunLetters(stripped, [], [], c);
    RunValid(stripped, [], []);
    FlattenPreserves(tree);
    StripWhitespaceKeepsOthers(input);
    assert !IsWhitespace(c);
  }

  // ---------------------------------------------------------------------------
  // Parentheses

  function OpenCount(s: seq<char>): nat
  {
    multiset(s)['(']
  }

  /** `popOper` only ever removes an operator, never a `(`. */
  lemma PopOperKeepsOpens(output: seq<Expr>, ops: seq<char>)
    requires PopOperSpec(output, ops).Ok?
    ensures OpenCount(PopOperSpec(output, ops).value.1) == OpenCount(ops)
  {
    OperatorCharsAreTheFive(ops[|ops| - 1]);
    assert ops == ops[..|ops| - 1] + [ops[|ops| - 1]];
    assert multiset(ops) == multiset(ops[..|ops| - 1]) + multiset{ops[|ops| - 1]};
  }

  /** The `)` branch removes exactly one `(` from the operator stack. */
  lemma {:induction false} ReduceToParenOpens(output: seq<Expr>, ops: seq<char>)
    requires ReduceToParen(output, ops).Ok?
    ensures OpenCount(ReduceToParen(output, ops).value.1) + 1 == OpenCount(ops)
    decreases |ops|
  {
    if ops != [] && ops[|ops| - 1] != '(' {
      PopOperKeepsOpens(output, ops);
      var next := PopOperSpec(output, ops).value;
      ReduceToParenOpens(next.0, next.1);
    } else {
      assert ops == ops[..|ops| - 1] + ['('];
      assert multiset(ops) == multiset(ops[..|ops| - 1]) + multiset{'('};
    }
  }

  /** An operator never reduces a `(`. */
  lemma {:induction false} ReduceForOperatorOpens(newOp: char, output: seq<Expr>, ops: seq<char>)
    requires ReduceForOperator(newOp, output, ops).Ok?
    ensures OpenCount(ReduceForOperator(newOp, output, ops).value.1) == OpenCount(ops)
    decreases |ops|
  {
    if ops != [] && PrecedenceAtMost(newOp, ops[|ops| - 1]) {
      PopOperKeepsOpens(output, ops);
      var next := PopOperSpec(output, ops).value;
      ReduceForOperatorOpens(newOp, next.0, next.1);
    }
  }

  /** The closing loop succeeds only when no `(` is left on the operator stack. */
  lemma {:induction false} FinishOpens(output: seq<Expr>, ops: seq<char>)
    requires Finish(output, ops).Ok?
    ensures OpenCount(ops) == 0
    decreases |ops|
  {
    if ops != [] {
      PopOperKeepsOpens(output, ops);
      var next := PopOperSpec(output, ops).value;
      FinishOpens(next.0, next.1);
    }
  }

  /** A `)` with no `(` anywhere on the operator stack fails. */
  lemma {:induction false} CloseWithoutOpenFails(output: seq<Expr>, ops: seq<char>)
    requires OpenCount(ops) == 0
    ensures ReduceToParen(output, ops).Err?
    ensures ops == [] ==> ReduceToParen(output, ops) == Err(MismatchedParentheses)
  {
    if ReduceToParen(output, ops).Ok? {
      ReduceToParenOpens(output, ops);
    }
  }

  /** A `(` left anywhere on the operator stack at the end makes the parse fail. */
  lemma FinishRejectsOpen(output: seq<Expr>, ops: seq<char>)
    requires OpenCount(ops) > 0
    ensures Finish(output, ops).Err?
    ensures ops[|ops| - 1] == '(' ==> Finish(output, ops) == Err(MismatchedParentheses)
  {
    if Finish(output, ops).Ok? {
      FinishOpens(output, ops);
    }
  }

  lemma CountFirst(rest: string, c: char)
    requires rest != []
    ensures multiset(rest)[c] == (if rest[0] == c then 1 else 0) + multiset(rest[1..])[c]
  {
    assert rest == [rest[0]] + rest[1..];
    assert multiset(rest) == multiset{rest[0]} + multiset(rest[1..]);
  }

  lemma CountAfterRun(rest: string, j: nat, c: char)
    requires j <= |rest| && forall k | 0 <= k < j :: IsDigitOrDecPoint(rest[k])
    requires !IsDigitOrDecPoint(c) && c != '*'
    ensures multiset(AfterTerm(rest[j..]))[c] == multiset(rest)[c]
  {
    AfterTermKeeps(rest[j..], c);
    assert rest == rest[..j] + rest[j..];
    assert multiset(rest) == multiset(rest[..j]) + multiset(rest[j..]);
    NoneInRun(rest[..j], c);
  }

  /**
   * A successful run reads as many `)` as `(`, counting the `(` already
   * waiting on the operator stack.
   */
  lemma {:induction false} RunParens(rest: string, output: seq<Expr>, ops: seq<char>)
    requires Run(rest, output, ops).Ok?
    ensures multiset(rest)['('] + OpenCount(ops) == multiset(rest)[')']
    decreases Weight(rest)
  {
    if rest == [] {
      FinishOpens(output, ops);
    } else if IsAlpha(rest[0]) {
      RunLetter(rest, output, ops);
      RunParens(AfterTerm(rest[1..]), output + [SymbolLeaf(rest[0])], ops);
      CountFirst(rest, '(');
      CountFirst(rest, ')');
      AfterTermKeeps(rest[1..], '(');
      AfterTermKeeps(rest[1..], ')');
    } else if IsDigitOrDecPoint(rest[0]) {
      RunNumber(rest, output, ops);
      var j := RunEnd(rest, 0);
      RunParens(AfterTerm(rest[j..]), output + [NumberLeaf(NumberValue(rest[..j]))], ops);
      CountAfterRun(rest, j, '(');
      CountAfterRun(rest, j, ')');
    } else {
      RunOther(rest, output, ops);
      CountFirst(rest, '(');
      CountFirst(rest, ')');
      if rest[0] == '(' {
        RunParens(rest[1..], output, ops + ['(']);
        assert multiset(ops + ['(']) == multiset(ops) + multiset{'('};
      } else if rest[0] == ')' {
        ReduceToParenOpens(output, ops);
        var next := ReduceToParen(output, ops).value;
        RunParens(rest[1..], next.0, next.1);
      } else {
        ReduceForOperatorOpens(rest[0], output, ops);
        var next := ReduceForOperator(rest[0], output, ops).value;
        RunParens(rest[1..], next.0, next.1 + [rest[0]]);
        assert multiset(next.1 + [rest[0]]) == multiset(next.1) + multiset{rest[0]};
      }
    }
  }

  /** A parsed input has as many `(` as `)`. */
  lemma ParseBalanced(input: string)
    requires ParseSpec(input).Ok?
    ensures multiset(input)['('] == multiset(input)[')']
  {
    RunParens(StripWhitespace(input), [], []);
    StripWhitespaceKeepsOthers(input);
    assert !IsWhitespace('(') && !IsWhitespace(')');
  }

  // ---------------------------------------------------------------------------
  // Accepted characters

  /** The characters the main loop has a branch for. */
  predicate IsTokenChar(c: char)
  {
    IsAlpha(c) || IsDigitOrDecPoint(c) || c == '(' || c == ')' || IsOperatorChar(c)
  }

  lemma AfterTermContains(next: string)
    ensures forall i | 0 <= i < |next| :: next[i] in AfterTerm(next)
  {
    if next != [] && IsAlpha(next[0]) {
      forall i | 0 <= i < |next|
        ensures next[i] in AfterTerm(next)
      {
        assert AfterTerm(next)[i + 1] == next[i];
      }
    }
  }

  /** A successful run has read only characters it has a branch for. */
  lemma {:induction false} RunAlphabet(rest: string, output: seq<Expr>, ops: seq<char>)
    requires Run(rest, output, ops).Ok?
    ensures forall i | 0 <= i < |rest| :: IsTokenChar(rest[i])
    decreases Weight(rest)
  {
    if rest != [] {
      if IsAlpha(rest[0]) {
        RunLetter(rest, output, ops);
        RunAlphabet(AfterTerm(rest[1..]), output + [SymbolLeaf(rest[0])], ops);
        AfterTermContains(rest[1..]);
        forall i | 1 <= i < |rest|
          ensures IsTokenChar(rest[i])
        {
          assert rest[i] == rest[1..][i - 1];
        }
      } else if IsDigitOrDecPoint(rest[0]) {
        RunNumber(rest, output, ops);
        var j := RunEnd(rest, 0);
        RunAlphabet(AfterTerm(rest[j..]), output + [NumberLeaf(NumberValue(rest[..j]))], ops);
        AfterTermContains(rest[j..]);
        forall i | j <= i < |rest|
          ensures IsTokenChar(rest[i])
        {
          assert rest[i] == rest[j..][i - j];
        }
      } else {
        RunOther(rest, output, ops);
        if rest[0] == '(' {
          RunAlphabet(rest[1..], output, ops + ['(']);
        } else if rest[0] == ')' {
          var next := ReduceToParen(output, ops).value;
          RunAlphabet(rest[1..], next.0, next.1);
        } else {
          var next := ReduceForOperator(rest[0], output, ops).value;
          RunAlphabet(rest[1..], next.0, next.1 + [rest[0]]);
        }
        forall i | 1 <= i < |rest|
          ensures IsTokenChar(rest[i])
        {
          assert rest[i] == rest[1..][i - 1];
        }
      }
    }
  }

  /**
   * Every character of a parsed input is whitespace, a letter, a digit or
   * point, a bracket or one of the five operators.
   */
  lemma ParseAlphabet(input: string)
    requires ParseSpec(input).Ok?
    ensures forall i | 0 <= i < |input| :: IsWhitespace(input[i]) || IsTokenChar(input[i])
  {
    var stripped := StripWhitespace(input);
    RunAlphabet(stripped, [], []);
    StripWhitespaceKeepsOthers(input);
    forall i | 0 <= i < |input| && !IsWhitespace(input[i])
      ensures IsTokenChar(input[i])
    {
      assert input[i] in multiset(input);
      assert input[i] in multiset(stripped);
      var k :| 0 <= k < |stripped| && stripped[k] == input[i];
    }
  }
}
