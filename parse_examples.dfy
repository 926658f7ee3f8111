/**
 * `sy.parse` on small inputs, worked through the shunting-yard steps: the
 * letters and operators are parameters, so each lemma covers a family of
 * inputs.
 */
module ParseExamples {
  import opened Results
  import opened Values
  import opened Operators
  import opened Exprs
  import opened Chars
  import opened Flatten
  import opened ShuntingYard

  /** An operator character is neither a letter, a digit, a point, a bracket nor whitespace. */
  lemma OperatorCharClass(op: char)
    requires IsOperatorChar(op)
    ensures !IsAlpha(op) && !IsDigitOrDecPoint(op) && op != '(' && op != ')' && !IsWhitespace(op)
  {
    OperatorCharsAreTheFive(op);
  }

  /** Five characters, none of them whitespace. */
  lemma PlainFive(a: char, op1: char, b: char, op2: char, c: char)
    requires IsAlpha(a) && IsAlpha(b) && IsAlpha(c) && IsOperatorChar(op1) && IsOperatorChar(op2)
    ensures StripWhitespace([a, op1, b, op2, c]) == [a, op1, b, op2, c]
  {
    OperatorCharClass(op1);
    OperatorCharClass(op2);
    StripWhitespaceIdle([a, op1, b, op2, c]);
  }

  /** `sy.parse` on text without whitespace from which the main loop builds one tree. */
  lemma ParsePlain(s: string, tree: Expr)
    requires StripWhitespace(s) == s && DijkstraSpec(s) == Ok(Some(tree))
    ensures ParseSpec(s) == Ok(FlattenSpec(tree))
  {
  }

  /** `popOper` with two trees on the output stack. */
  lemma PopTwo(below: seq<Expr>, x: Expr, y: Expr, ops: seq<char>, op: char)
    requires IsOperatorChar(op)
    ensures PopOperSpec(below + [x, y], ops + [op]) == Ok((below + [Expr(Op(op), [x, y])], ops))
  {
    var output := below + [x, y];
    assert output[..|output| - 2] == below && output[|output| - 2] == x && output[|output| - 1] == y;
    assert (ops + [op])[..|ops|] == ops;
  }

  /** `popOper` with one tree on the output stack builds a one-operand node. */
  lemma PopOne(x: Expr, ops: seq<char>, op: char)
    requires IsOperatorChar(op)
    ensures PopOperSpec([x], ops + [op]) == Ok(([Expr(Op(op), [x])], ops))
  {
    assert (ops + [op])[..|ops|] == ops;
  }

  /** After a letter: no implicit `*` before an operator. */
  lemma LetterThenOperator(a: char, op: char, rest: string, output: seq<Expr>, ops: seq<char>)
    requires IsAlpha(a) && IsOperatorChar(op)
    ensures Run([a, op] + rest, output, ops) == Run([op] + rest, output + [SymbolLeaf(a)], ops)
  {
    OperatorCharClass(op);
    var s := [a, op] + rest;
    RunLetter(s, output, ops);
    assert s[1..] == [op] + rest;
  }

  /** An operator on an operator stack that it does not reduce. */
  lemma OperatorNoReduce(op: char, rest: string, output: seq<Expr>, ops: seq<char>)
    requires IsOperatorChar(op) && (ops == [] || !PrecedenceAtMost(op, ops[|ops| - 1]))
    ensures Run([op] + rest, output, ops) == Run(rest, output, ops + [op])
  {
    OperatorCharClass(op);
    RunOther([op] + rest, output, ops);
    assert ([op] + rest)[1..] == rest;
  }

  /** An operator that reduces the single operator on the stack. */
  lemma OperatorReduces(op: char, rest: string, x: Expr, y: Expr, top: char)
    requires IsOperatorChar(op) && IsOperatorChar(top) && PrecedenceAtMost(op, top)
    ensures Run([op] + rest, [x, y], [top]) == Run(rest, [Expr(Op(top), [x, y])], [op])
  {
    OperatorCharClass(op);
    RunOther([op] + rest, [x, y], [top]);
    assert ([op] + rest)[0] == op && ([op] + rest)[1..] == rest;
    ReduceOnce(op, x, y, top);
    assert [] + [op] == [op];
  }

  /** Reducing for an incoming operator that binds no tighter than the one operator on the stack. */
  lemma ReduceOnce(op: char, x: Expr, y: Expr, top: char)
    requires IsOperatorChar(op) && IsOperatorChar(top) && PrecedenceAtMost(op, top)
    ensures ReduceForOperator(op, [x, y], [top]) == Ok(([Expr(Op(top), [x, y])], []))
  {
    PopTwo([], x, y, [], top);
    assert [] + [x, y] == [x, y] && [] + [top] == [top];
    var node := Expr(Op(top), [x, y]);
    assert [] + [node] == [node];
    assert PopOperSpec([x, y], [top]) == Ok(([node], []));
    assert ReduceForOperator(op, [node], []) == Ok(([node], []));
  }

  /** The last letter of the text. */
  lemma LastLetter(a: char, output: seq<Expr>, ops: seq<char>)
    requires IsAlpha(a)
    ensures Run([a], output, ops) == Finish(output + [SymbolLeaf(a)], ops)
  {
    RunLetter([a], output, ops);
    assert [a][1..] == [];
  }

  /** The closing loop reduces one operator over the last two trees. */
  lemma FinishTwo(x: Expr, y: Expr, op: char)
    requires IsOperatorChar(op)
    ensures Finish([x, y], [op]) == Ok(Some(Expr(Op(op), [x, y])))
  {
    OperatorCharClass(op);
    PopTwo([], x, y, [], op);
    assert [] + [x, y] == [x, y] && [] + [op] == [op];
  }

  /** The closing loop reduces the top operator first, then the one below it. */
  lemma FinishThree(x: Expr, y: Expr, z: Expr, op1: char, op2: char)
    requires IsOperatorChar(op1) && IsOperatorChar(op2)
    ensures Finish([x, y, z], [op1, op2]) == Ok(Some(Expr(Op(op1), [x, Expr(Op(op2), [y, z])])))
  {
    OperatorCharClass(op2);
    PopTwo([x], y, z, [op1], op2);
    assert [x] + [y, z] == [x, y, z] && [op1] + [op2] == [op1, op2];
    assert [x] + [Expr(Op(op2), [y, z])] == [x, Expr(Op(op2), [y, z])];
    FinishTwo(x, Expr(Op(op2), [y, z]), op1);
  }

  lemma RunBinary(a: char, op: char, b: char)
    requires IsAlpha(a) && IsAlpha(b) && IsOperatorChar(op)
    ensures DijkstraSpec([a, op, b]) == Ok(Some(Expr(Op(op), [SymbolLeaf(a), SymbolLeaf(b)])))
  {
    var A, B := SymbolLeaf(a), SymbolLeaf(b);
    FirstTerm(a, op, [b]);
    assert [a, op] + [b] == [a, op, b];
    LastLetter(b, [A], [op]);
    assert [A] + [B] == [A, B];
    FinishTwo(A, B, op);
  }

  /** `a op b`: one two-operand node. */
  lemma ParseBinary(a: char, op: char, b: char)
    requires IsAlpha(a) && IsAlpha(b) && IsOperatorChar(op)
    ensures ParseSpec([a, op, b]) == Ok(Expr(Op(op), [SymbolLeaf(a), SymbolLeaf(b)]))
  {
    OperatorCharClass(op);
    StripWhitespaceIdle([a, op, b]);
    RunBinary(a, op, b);
    FlattenLeafPair(op, SymbolLeaf(a), SymbolLeaf(b));
  }

  /** `a op ...` from empty stacks: the letter is output and the operator pushed. */
  lemma FirstTerm(a: char, op: char, rest: string)
    requires IsAlpha(a) && IsOperatorChar(op)
    ensures Run([a, op] + rest, [], []) == Run(rest, [SymbolLeaf(a)], [op])
  {
    LetterThenOperator(a, op, rest, [], []);
    assert [] + [SymbolLeaf(a)] == [SymbolLeaf(a)];
    OperatorNoReduce(op, rest, [SymbolLeaf(a)], []);
    assert [] + [op] == [op];
  }

  /** `a op1 b op2 ...`: the run up to the second operator, before it reduces anything. */
  lemma RunTwoTerms(a: char, op1: char, b: char, op2: char, rest: string)
    requires IsAlpha(a) && IsAlpha(b) && IsOperatorChar(op1) && IsOperatorChar(op2)
    ensures Run([a, op1, b, op2] + rest, [], []) == Run([op2] + rest, [SymbolLeaf(a), SymbolLeaf(b)], [op1])
  {
    var tail := [b, op2] + rest;
    assert [a, op1, b, op2] + rest == [a, op1] + tail;
    FirstTerm(a, op1, tail);
    LetterThenOperator(b, op2, rest, [SymbolLeaf(a)], [op1]);
    assert [SymbolLeaf(a)] + [SymbolLeaf(b)] == [SymbolLeaf(a), SymbolLeaf(b)];
  }

  /**
   * `a op1 b op2 c` before flattening, when `op2` binds no tighter than
   * `op1`: the earlier operator is reduced first, so the tree nests to the
   * left. This is the case of equal precedence, such as `a-b-c`.
   */
  lemma RunNestsLeft(a: char, op1: char, b: char, op2: char, c: char)
    requires IsAlpha(a) && IsAlpha(b) && IsAlpha(c) && IsOperatorChar(op1) && IsOperatorChar(op2)
    requires PrecedenceAtMost(op2, op1)
    ensures DijkstraSpec([a, op1, b, op2, c])
      == Ok(Some(Expr(Op(op2), [Expr(Op(op1), [SymbolLeaf(a), SymbolLeaf(b)]), SymbolLeaf(c)])))
  {
    var A, B, C := SymbolLeaf(a), SymbolLeaf(b), SymbolLeaf(c);
    var inner := Expr(Op(op1), [A, B]);
    RunTwoTerms(a, op1, b, op2, [c]);
    assert [a, op1, b, op2] + [c] == [a, op1, b, op2, c];
    OperatorReduces(op2, [c], A, B, op1);
    LastLetter(c, [inner], [op2]);
    assert [inner] + [C] == [inner, C];
    FinishTwo(inner, C, op2);
  }

  /**
   * `a op1 b op2 c` before flattening, when `op2` binds tighter than `op1`:
   * `b op2 c` is reduced first and becomes the right operand.
   */
  lemma RunNestsRight(a: char, op1: char, b: char, op2: char, c: char)
    requires IsAlpha(a) && IsAlpha(b) && IsAlpha(c) && IsOperatorChar(op1) && IsOperatorChar(op2)
    requires !PrecedenceAtMost(op2, op1)
    ensures DijkstraSpec([a, op1, b, op2, c])
      == Ok(Some(Expr(Op(op1), [SymbolLeaf(a), Expr(Op(op2), [SymbolLeaf(b), SymbolLeaf(c)])])))
  {
    RunTwoTerms(a, op1, b, op2, [c]);
    assert [a, op1, b, op2] + [c] == [a, op1, b, op2, c];
    ShiftThenFinish(SymbolLeaf(a), SymbolLeaf(b), op1, op2, c);
  }

  /** The tail of `a op1 b op2 c` when `op2` binds tighter: it is pushed, and the end reduces both. */
  lemma ShiftThenFinish(A: Expr, B: Expr, op1: char, op2: char, c: char)
    requires IsAlpha(c) && IsOperatorChar(op1) && IsOperatorChar(op2)
    requires !PrecedenceAtMost(op2, op1)
    ensures Run([op2] + [c], [A, B], [op1]) == Ok(Some(Expr(Op(op1), [A, Expr(Op(op2), [B, SymbolLeaf(c)])])))
  {
    var C := SymbolLeaf(c);
    OperatorNoReduce(op2, [c], [A, B], [op1]);
    assert [op1] + [op2] == [op1, op2];
    LastLetter(c, [A, B], [op1, op2]);
    assert [A, B] + [C] == [A, B, C];
    FinishThree(A, B, C, op1, op2);
  }

  lemma PrecedenceReflexive(op: char)
    requires IsOperatorChar(op)
    ensures PrecedenceAtMost(op, op)
  {
    PrecedenceOrder(op);
  }

  /** A two-level tree over leaves that flattening leaves alone. */
  lemma FlattenTwoLevels(outer: char, innerOp: char, A: Expr, B: Expr, leaf: Expr, innerFirst: bool)
    requires A.operands == [] && B.operands == [] && leaf.operands == []
    requires !A.value.Op? && !B.value.Op? && !leaf.value.Op?
    requires IsOpOrdered(Op(outer)) || innerOp != outer
    ensures var inner := Expr(Op(innerOp), [A, B]);
      var tree := Expr(Op(outer), if innerFirst then [inner, leaf] else [leaf, inner]);
      FlattenSpec(tree) == tree
  {
    FlattenLeafPair(innerOp, A, B);
    var inner := Expr(Op(innerOp), [A, B]);
    var tree := Expr(Op(outer), if innerFirst then [inner, leaf] else [leaf, inner]);
    FlattenKeepsShape(tree);
    assert FlattenSpec(leaf) == leaf;
    assert FlattenSpec(tree).operands == tree.operands;
  }

  /** `sy.parse` on `a op1 b op2 c`, before the tree is simplified. */
  lemma ParseFiveLeft(a: char, op1: char, b: char, op2: char, c: char)
    requires IsAlpha(a) && IsAlpha(b) && IsAlpha(c) && IsOperatorChar(op1) && IsOperatorChar(op2)
    requires PrecedenceAtMost(op2, op1)
    ensures ParseSpec([a, op1, b, op2, c])
      == Ok(FlattenSpec(Expr(Op(op2), [Expr(Op(op1), [SymbolLeaf(a), SymbolLeaf(b)]), SymbolLeaf(c)])))
  {
    PlainFive(a, op1, b, op2, c);
    RunNestsLeft(a, op1, b, op2, c);
    ParsePlain([a, op1, b, op2, c], Expr(Op(op2), [Expr(Op(op1), [SymbolLeaf(a), SymbolLeaf(b)]), SymbolLeaf(c)]));
  }

  lemma ParseFiveRight(a: char, op1: char, b: char, op2: char, c: char)
    requires IsAlpha(a) && IsAlpha(b) && IsAlpha(c) && IsOperatorChar(op1) && IsOperatorChar(op2)
    requires !PrecedenceAtMost(op2, op1)
    ensures ParseSpec([a, op1, b, op2, c])
      == Ok(FlattenSpec(Expr(Op(op1), [SymbolLeaf(a), Expr(Op(op2), [SymbolLeaf(b), SymbolLeaf(c)])])))
  {
    PlainFive(a, op1, b, op2, c);
    RunNestsRight(a, op1, b, op2, c);
    ParsePlain([a, op1, b, op2, c], Expr(Op(op1), [SymbolLeaf(a), Expr(Op(op2), [SymbolLeaf(b), SymbolLeaf(c)])]));
  }

  /**
   * `a op1 b op2 c` where `op2` binds no tighter than `op1`, and the outer
   * node is not merged with the inner one (its operator is ordered, or the
   * two differ): `op2(op1(a, b), c)`. For `a-b-c` this is `(a-b)-c`, and for
   * `a+b-c` it is `(a+b)-c`.
   */
  lemma ParseNestsLeft(a: char, op1: char, b: char, op2: char, c: char)
    requires IsAlpha(a) && IsAlpha(b) && IsAlpha(c) && IsOperatorChar(op1) && IsOperatorChar(op2)
    requires PrecedenceAtMost(op2, op1) && (IsOpOrdered(Op(op2)) || op1 != op2)
    ensures ParseSpec([a, op1, b, op2, c])
      == Ok(Expr(Op(op2), [Expr(Op(op1), [SymbolLeaf(a), SymbolLeaf(b)]), SymbolLeaf(c)]))
  {
    ParseFiveLeft(a, op1, b, op2, c);
    FlattenTwoLevels(op2, op1, SymbolLeaf(a), SymbolLeaf(b), SymbolLeaf(c), true);
  }

  /**
   * `a op1 b op2 c` where `op2` binds tighter than `op1`: `op1(a, op2(b, c))`,
   * as in `a+b*c`.
   */
  lemma ParseNestsRight(a: char, op1: char, b: char, op2: char, c: char)
    requires IsAlpha(a) && IsAlpha(b) && IsAlpha(c) && IsOperatorChar(op1) && IsOperatorChar(op2)
    requires !PrecedenceAtMost(op2, op1)
    ensures ParseSpec([a, op1, b, op2, c])
      == Ok(Expr(Op(op1), [SymbolLeaf(a), Expr(Op(op2), [SymbolLeaf(b), SymbolLeaf(c)])]))
  {
    ParseFiveRight(a, op1, b, op2, c);
    PrecedenceReflexive(op2);
    FlattenTwoLevels(op1, op2, SymbolLeaf(b), SymbolLeaf(c), SymbolLeaf(a), false);
  }

  /**
   * `a op b op c` for `+` or `*`: the left-nested tree is flattened with the
   * spliced operands last, `op(c, a, b)`.
   */
  lemma ParseFlattensChain(a: char, op: char, b: char, c: char)
    requires IsAlpha(a) && IsAlpha(b) && IsAlpha(c) && (op == '+' || op == '*')
    ensures ParseSpec([a, op, b, op, c]) == Ok(Expr(Op(op), [SymbolLeaf(c), SymbolLeaf(a), SymbolLeaf(b)]))
  {
    OperatorCharsAreTheFive(op);
    PrecedenceReflexive(op);
    ParseFiveLeft(a, op, b, op, c);
    FlattenSkipsShiftedOperand(op, SymbolLeaf(a), SymbolLeaf(b), SymbolLeaf(c));
  }

  /** An operator on empty stacks reduces nothing and is pushed. */
  lemma OperatorFirst(op: char, rest: string)
    requires IsOperatorChar(op)
    ensures Run([op] + rest, [], []) == Run(rest, [], [op])
  {
    OperatorNoReduce(op, rest, [], []);
    assert [] + [op] == [op];
  }

  /** The closing loop with one tree and one operator builds a one-operand node. */
  lemma FinishOne(x: Expr, op: char)
    requires IsOperatorChar(op)
    ensures Finish([x], [op]) == Ok(Some(Expr(Op(op), [x])))
  {
    OperatorCharClass(op);
    PopOne(x, [], op);
    assert [] + [op] == [op];
  }

  /** A one-operand node over a leaf is left alone by flattening. */
  lemma FlattenUnary(op: char, x: Expr)
    requires x.operands == [] && !x.value.Op?
    ensures FlattenSpec(Expr(Op(op), [x])) == Expr(Op(op), [x])
  {
    FlattenKeepsShape(Expr(Op(op), [x]));
    assert FlattenSpec(Expr(Op(op), [x])).operands == [x];
  }

  /** `op a`, as in `-x`: a leading operator becomes a one-operand node. */
  lemma ParseLeadingOperator(op: char, a: char)
    requires IsOperatorChar(op) && IsAlpha(a)
    ensures ParseSpec([op, a]) == Ok(Expr(Op(op), [SymbolLeaf(a)]))
  {
    OperatorCharClass(op);
    StripWhitespaceIdle([op, a]);
    RunLeadingOperator(op, a);
    ParsePlain([op, a], Expr(Op(op), [SymbolLeaf(a)]));
    FlattenUnary(op, SymbolLeaf(a));
  }

  lemma RunLeadingOperator(op: char, a: char)
    requires IsOperatorChar(op) && IsAlpha(a)
    ensures DijkstraSpec([op, a]) == Ok(Some(Expr(Op(op), [SymbolLeaf(a)])))
  {
    OperatorFirst(op, [a]);
    assert [op] + [a] == [op, a];
    LastLetter(a, [], [op]);
    assert [] + [SymbolLeaf(a)] == [SymbolLeaf(a)];
    FinishOne(SymbolLeaf(a), op);
  }

  /** `a op`, as in `x+`: a dangling operator also becomes a one-operand node. */
  lemma ParseTrailingOperator(a: char, op: char)
    requires IsAlpha(a) && IsOperatorChar(op)
    ensures ParseSpec([a, op]) == Ok(Expr(Op(op), [SymbolLeaf(a)]))
  {
    OperatorCharClass(op);
    StripWhitespaceIdle([a, op]);
    LetterThenOperator(a, op, [], [], []);
    assert [a, op] + [] == [a, op];
    assert [] + [SymbolLeaf(a)] == [SymbolLeaf(a)];
    OperatorNoReduce(op, [], [SymbolLeaf(a)], []);
    assert [op] + [] == [op] && [] + [op] == [op];
    FinishOne(SymbolLeaf(a), op);
    FlattenUnary(op, SymbolLeaf(a));
  }

  /** A lone operator has no operand: building its node fails. */
  lemma ParseLoneOperator(op: char)
    requires IsOperatorChar(op)
    ensures ParseSpec([op]) == Err(OperandsNotExpressions)
  {
    OperatorCharClass(op);
    StripWhitespaceIdle([op]);
    OperatorFirst(op, []);
    assert [op] + [] == [op];
  }

  /** Empty text, blank text and an empty pair of brackets leave no tree. */
  lemma ParseNothing(blank: string)
    requires forall i | 0 <= i < |blank| :: IsWhitespace(blank[i])
    ensures ParseSpec(blank) == Err(NoExpression)
    ensures ParseSpec("()") == Err(NoExpression)
  {
    StripWhitespaceKeepsOthers(blank);
    if StripWhitespace(blank) != [] {
      assert false;
    }
    StripWhitespaceIdle("()");
    RunOther("()", [], []);
    assert "()"[1..] == ")";
    RunOther(")", [], ['(']);
    assert ")"[1..] == [];
  }

  /** `( a`: a `(` still on the stack at the end. */
  lemma ParseUnclosed(a: char)
    requires IsAlpha(a)
    ensures ParseSpec(['(', a]) == Err(MismatchedParentheses)
  {
    StripWhitespaceIdle(['(', a]);
    RunOther(['(', a], [], []);
    assert ['(', a][1..] == [a];
    LastLetter(a, [], ['(']);
  }

  /** `a )`: a `)` with no `(` on the stack. */
  lemma ParseUnopened(a: char)
    requires IsAlpha(a)
    ensures ParseSpec([a, ')']) == Err(MismatchedParentheses)
  {
    StripWhitespaceIdle([a, ')']);
    RunLetter([a, ')'], [], []);
    assert [a, ')'][1..] == [')'];
    assert [] + [SymbolLeaf(a)] == [SymbolLeaf(a)];
    RunOther([')'], [SymbolLeaf(a)], []);
  }

  /**
   * `(a)b`: two trees are left on the output with no operator between them,
   * so the end of the loop reports a malformed expression.
   */
  lemma ParseTwoTrees(a: char, b: char)
    requires IsAlpha(a) && IsAlpha(b)
    ensures ParseSpec(['(', a, ')', b]) == Err(MalformedExpression)
  {
    StripWhitespaceIdle(['(', a, ')', b]);
    RunTwoTrees(a, b);
  }

  lemma RunTwoTrees(a: char, b: char)
    requires IsAlpha(a) && IsAlpha(b)
    ensures DijkstraSpec(['(', a, ')', b]) == Err(MalformedExpression)
  {
    var A, B := SymbolLeaf(a), SymbolLeaf(b);
    assert ['(', a, ')', b] == ['(', a, ')'] + [b];
    ParenGroup(a, [b]);
    LastLetter(b, [A], []);
    assert [A] + [B] == [A, B];
  }

  /** `(a` followed by `)`: the group leaves its letter on the output and nothing on the operator stack. */
  lemma ParenGroup(a: char, rest: string)
    requires IsAlpha(a)
    ensures Run(['(', a, ')'] + rest, [], []) == Run(rest, [SymbolLeaf(a)], [])
  {
    var A := SymbolLeaf(a);
    var s := ['(', a, ')'] + rest;
    RunOther(s, [], []);
    assert s[1..] == [a, ')'] + rest;
    assert [] + ['('] == ['('];
    RunLetter([a, ')'] + rest, [], ['(']);
    assert ([a, ')'] + rest)[1..] == [')'] + rest;
    assert [] + [A] == [A];
    RunOther([')'] + rest, [A], ['(']);
    assert ReduceToParen([A], ['(']) == Ok(([A], []));
    assert ([')'] + rest)[1..] == rest;
  }

  /** A character that is no letter, digit, point, bracket, operator or whitespace. */
  lemma ParseStrayCharacter(c: char)
    requires !IsAlpha(c) && !IsDigitOrDecPoint(c) && c != '(' && c != ')' && !IsOperatorChar(c) && !IsWhitespace(c)
    ensures ParseSpec([c]) == Err(MalformedExpression)
  {
    StripWhitespaceIdle([c]);
    RunOther([c], [], []);
  }

  /** Two adjacent letters `ab`: an implicit `*` is inserted between them. */
  lemma ParseLetterPair(a: char, b: char)
    requires IsAlpha(a) && IsAlpha(b)
    ensures ParseSpec([a, b]) == Ok(Expr(Op('*'), [SymbolLeaf(a), SymbolLeaf(b)]))
  {
    StripWhitespaceIdle([a, b]);
    RunLetter([a, b], [], []);
    assert [a, b][1..] == [b];
    assert AfterTerm([b]) == [a, '*', b][1..];
    assert [a, '*', b] == [a, '*'] + [b];
    OperatorCharsAreTheFive('*');
    LetterThenOperator(a, '*', [b], [], []);
    assert Run([a, b], [], []) == Run([a, '*', b], [], []);
    RunBinary(a, '*', b);
    FlattenLeafPair('*', SymbolLeaf(a), SymbolLeaf(b));
  }

  /** A digit or a point is not whitespace. */
  lemma NumeralCharsPlain(run: string)
    requires forall i | 0 <= i < |run| :: IsDigitOrDecPoint(run[i])
    ensures StripWhitespace(run) == run
  {
    assert forall i | 0 <= i < |run| :: !IsWhitespace(run[i]);
    StripWhitespaceIdle(run);
  }

  /**
   * A whole text that is one run of digits and points: one number if the
   * run is a numeral, 'Invalid number' otherwise.
   */
  lemma ParseNumberRun(run: string)
    requires run != [] && forall i | 0 <= i < |run| :: IsDigitOrDecPoint(run[i])
    ensures IsNumeral(run) ==> ParseSpec(run) == Ok(NumberLeaf(NumberValue(run)))
    ensures !IsNumeral(run) ==> ParseSpec(run) == Err(InvalidNumber(run))
  {
    NumeralCharsPlain(run);
    RunNumber(run, [], []);
    RunEndUnique(run, 0, |run|);
    assert run[..|run|] == run && run[|run|..] == [];
  }

  lemma AllDigitsAppend(a: string, b: string)
    requires AllDigits(a) && AllDigits(b)
    ensures AllDigits(a + b)
  {
    forall i | 0 <= i < |a + b|
      ensures IsDigit((a + b)[i])
    {
      if i >= |a| {
        assert (a + b)[i] == b[i - |a|];
      }
    }
  }

  /** Stripping works piece by piece. */
  lemma {:induction false} StripWhitespaceAppend(a: string, b: string)
    ensures StripWhitespace(a + b) == StripWhitespace(a) + StripWhitespace(b)
  {
    if a == [] {
      assert a + b == b;
    } else {
      assert (a + b)[0] == a[0] && (a + b)[1..] == a[1..] + b;
      StripWhitespaceAppend(a[1..], b);
    }
  }

  /** `sy.parse` sees only the stripped text. */
  lemma ParseStripped(s: string, t: string)
    requires StripWhitespace(s) == t && StripWhitespace(t) == t
    ensures ParseSpec(s) == ParseSpec(t)
  {
  }

  /**
   * Whitespace between two groups of digits is dropped before the loop
   * starts, so the groups form one number: `2 2` is 22.
   */
  lemma ParseJoinsDigits(a: string, space: char, b: string)
    requires a != [] && AllDigits(a) && AllDigits(b) && IsWhitespace(space)
    ensures AllDigits(a + b)
    ensures ParseSpec(a + [space] + b) == Ok(NumberLeaf(DigitsValue(a + b) as real))
  {
    AllDigitsAppend(a, b);
    StripSpaceBetween(a, space, b);
    NumeralCharsPlain(a + b);
    ParseStripped(a + [space] + b, a + b);
    ParseNumberRun(a + b);
  }

  lemma StripSpaceBetween(a: string, space: char, b: string)
    requires AllDigits(a) && AllDigits(b) && IsWhitespace(space)
    ensures StripWhitespace(a + [space] + b) == a + b
  {
    NumeralCharsPlain(a);
    NumeralCharsPlain(b);
    StripWhitespaceAppend(a + [space], b);
    StripWhitespaceAppend(a, [space]);
    assert StripWhitespace([space]) == [];
    assert a + [] == a;
  }

  /** `.` followed by digits is a numeral worth the digits over the matching power of ten. */
  lemma LeadingPointValue(ds: string)
    requires ds != [] && AllDigits(ds)
    ensures forall i | 0 <= i < |['.'] + ds| :: IsDigitOrDecPoint((['.'] + ds)[i])
    ensures IsNumeral(['.'] + ds)
    ensures NumberValue(['.'] + ds) == DigitsValue(ds) as real / Pow10(|ds|) as real
  {
    var run := ['.'] + ds;
    assert forall i | 1 <= i < |run| :: run[i] == ds[i - 1];
    assert run[..0] == [] && run[1..] == ds;
    assert AllDigits(run[..0]);
    assert !IsDigit(run[0]);
    assert FirstDot(run) == 0;
  }

  /** A numeral that starts with its point, such as `.48`: the missing whole part counts as 0. */
  lemma ParseLeadingPoint(ds: string)
    requires ds != [] && AllDigits(ds)
    ensures ParseSpec(['.'] + ds) == Ok(NumberLeaf(DigitsValue(ds) as real / Pow10(|ds|) as real))
  {
    LeadingPointValue(ds);
    ParseNumberRun(['.'] + ds);
  }

  /** A run with two points, such as `1.2.3`, is rejected as a whole. */
  lemma ParseTwoPoints(d1: char, d2: char, d3: char)
    requires IsDigit(d1) && IsDigit(d2) && IsDigit(d3)
    ensures ParseSpec([d1, '.', d2, '.', d3]) == Err(InvalidNumber([d1, '.', d2, '.', d3]))
  {
    var run := [d1, '.', d2, '.', d3];
    NumeralIff(run);
    DotSplit(run, 1);
    assert run[..1] == [d1] && run[2..] == [d2, '.', d3];
    DotSplit([d2, '.', d3], 1);
    assert [d2, '.', d3][..1] == [d2] && [d2, '.', d3][2..] == [d3];
    ParseNumberRun(run);
  }

  /** The main loop on a digit followed by a letter: the number run ends at the letter, and a `*` is inserted. */
  lemma RunDigitThenLetter(d: char, a: char)
    requires IsDigit(d) && IsAlpha(a)
    ensures DijkstraSpec([d, a]) == Run(['*', a], [NumberLeaf((d as int - '0' as int) as real)], [])
  {
    RunNumber([d, a], [], []);
    RunEndUnique([d, a], 0, 1);
    assert [d, a][..1] == [d];
    assert AllDigits([d]) && [d][..0] == [];
    assert DigitsValue([d]) == d as int - '0' as int;
    assert IsNumeral([d]) && NumberValue([d]) == (d as int - '0' as int) as real;
    assert [d, a][1..] == [a];
    assert AfterTerm([a]) == ['*', a];
    assert [] + [NumberLeaf((d as int - '0' as int) as real)] == [NumberLeaf((d as int - '0' as int) as real)];
  }

  /** A digit followed by a letter, as in `2x`: an implicit `*` joins the number and the symbol. */
  lemma ParseDigitThenLetter(d: char, a: char)
    requires IsDigit(d) && IsAlpha(a)
    ensures ParseSpec([d, a]) == Ok(Expr(Op('*'), [NumberLeaf((d as int - '0' as int) as real), SymbolLeaf(a)]))
  {
    var N, A := NumberLeaf((d as int - '0' as int) as real), SymbolLeaf(a);
    StripWhitespaceIdle([d, a]);
    RunDigitThenLetter(d, a);
    OperatorCharsAreTheFive('*');
    OperatorNoReduce('*', [a], [N], []);
    assert ['*'] + [a] == ['*', a] && [] + ['*'] == ['*'];
    LastLetter(a, [N], ['*']);
    assert [N] + [A] == [N, A];
    FinishTwo(N, A, '*');
    FlattenLeafPair('*', N, A);
  }
}
