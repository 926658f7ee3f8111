/** The operator table and the numeric fold of `src/sy.js`. */
module Operators {
  import opened Results
  import opened Values

  /** `sy._OPS`. */
  const Ops: seq<string> := ["+", "-", "*", "^", "/"]

  /** `sy._OP_ORDERED`: whether regrouping or reordering the operands changes the result. */
  const OpOrdered: map<char, bool> := map['+' := false, '*' := false, '^' := true, '/' := true, '-' := true]

  /** `sy._OP_PRECEDENCES`, including the parser's sentinel for `(`. */
  const OpPrecedences: map<char, int> := map['+' := 1, '-' := 1, '*' := 2, '/' := 2, '^' := 3, '(' := 0]

  /** `Array.prototype.indexOf` with `===` on strings: the first position of `x`, or -1. */
  function IndexOf(xs: seq<string>, x: string): (r: int)
    ensures -1 <= r < |xs|
    ensures r >= 0 ==> xs[r] == x && x !in xs[..r]
    ensures r == -1 <==> x !in xs
  {
    if xs == [] then -1
    else if xs[0] == x then 0
    else
      var k := IndexOf(xs[1..], x);
      if k == -1 then -1
      else
        assert xs[..k + 1] == [xs[0]] + xs[1..][..k];
        k + 1
  }

  /**
   * `sy.isOperator`: the value occurs in `sy._OPS`. Only a string can be
   * `===` to an element of `sy._OPS`.
   */
  predicate IsOperator(v: Value)
  {
    v.Text? && v.s in Ops
  }

  /** `sy._OPS.indexOf(x) > -1`, the test as the source writes it, is membership. */
  lemma IsOperatorByIndex(v: Value)
    ensures IsOperator(v) <==> v.Text? && IndexOf(Ops, v.s) > -1
  {
  }

  /**
   * A one-character string the parser hands to `sy.isOperator`, stated on
   * the character; `OperatorCharsAreTheFive` connects the two.
   */
  predicate IsOperatorChar(c: char)
  {
    c == '+' || c == '-' || c == '*' || c == '^' || c == '/'
  }

  /** `sy.isTerminal`: a number or a `Symbol` instance. */
  predicate IsTerminal(v: Value)
  {
    v.Number? || v.SymbolObject?
  }

  /**
   * `sy.isOpOrdered` on the value of a node. A key missing from
   * `sy._OP_ORDERED` yields `undefined`, which the callers treat as false.
   */
  predicate IsOpOrdered(a: Atom)
  {
    a.Op? && a.op in OpOrdered && OpOrdered[a.op]
  }

  /**
   * `sy._OP_PRECEDENCES[newOp] <= sy._OP_PRECEDENCES[top]`. A comparison
   * with a missing key compares against `undefined` and is false.
   */
  predicate PrecedenceAtMost(newOp: char, top: char)
  {
    newOp in OpPrecedences && top in OpPrecedences && OpPrecedences[newOp] <= OpPrecedences[top]
  }

  /** The operator values are exactly the five one-character strings `+ - * ^ /`. */
  lemma OperatorsAreTheFive(v: Value)
    ensures IsOperator(v) <==> v in {Text("+"), Text("-"), Text("*"), Text("^"), Text("/")}
  {
  }

  /** `sy.isOperator` on a one-character string holds for exactly the five operator characters. */
  lemma OperatorCharsAreTheFive(c: char)
    ensures IsOperator(Text([c])) <==> IsOperatorChar(c)
  {
    OperatorsAreTheFive(Text([c]));
    assert Text([c]) == Text("+") <==> c == '+';
    assert Text([c]) == Text("-") <==> c == '-';
    assert Text([c]) == Text("*") <==> c == '*';
    assert Text([c]) == Text("^") <==> c == '^';
    assert Text([c]) == Text("/") <==> c == '/';
  }

  /** A value is never both an operator and a terminal, and `undefined` is neither. */
  lemma OperatorAndTerminalDisjoint(v: Value)
    ensures !(IsOperator(v) && IsTerminal(v))
    ensures v.Undefined? ==> !IsOperator(v) && !IsTerminal(v)
  {
  }

  /** `-`, `/` and `^` are ordered; `+` and `*` are not; no other character is. */
  lemma OrderedOperators(c: char)
    ensures IsOpOrdered(Op(c)) <==> c == '-' || c == '/' || c == '^'
    ensures IsOperatorChar(c) && !IsOpOrdered(Op(c)) <==> c == '+' || c == '*'
  {
    OperatorCharsAreTheFive(c);
  }

  /**
   * `^` binds tighter than `*` and `/`, which bind tighter than `+` and `-`,
   * and every operator outranks the `(` sentinel, so an incoming operator
   * never reduces past a `(`.
   */
  lemma PrecedenceOrder(op: char)
    requires IsOperatorChar(op)
    ensures op in OpPrecedences && OpPrecedences[op] > OpPrecedences['(']
    ensures !PrecedenceAtMost(op, '(')
    ensures PrecedenceAtMost('+', op) && PrecedenceAtMost('-', op)
    ensures PrecedenceAtMost(op, '^')
    ensures PrecedenceAtMost('*', op) <==> op != '+' && op != '-'
    ensures PrecedenceAtMost('/', op) <==> op != '+' && op != '-'
    ensures PrecedenceAtMost(op, '*') <==> op != '^'
    ensures PrecedenceAtMost(op, '/') <==> op != '^'
  {
    OperatorCharsAreTheFive(op);
  }

  /**
   * JavaScript's division and `Math.pow` on doubles. They are parameters of
   * the model rather than real division and exponentiation, which do not
   * agree with IEEE-754 (division by zero, fractional powers, rounding).
   */
  datatype Arith = Arith(quotient: (real, real) -> real, power: (real, real) -> real)

  /**
   * One step of the `switch` in `sy.applyOp`: combine the running result
   * with the next operand, or fail on the `default` branch.
   */
  function Combine(op: Atom, acc: real, x: real, arith: Arith): Option<real>
  {
    match op
    case Op('+') => Some(acc + x)
    case Op('-') => Some(acc - x)
    case Op('*') => Some(acc * x)
    case Op('/') => Some(arith.quotient(acc, x))
    case Op('^') => Some(arith.power(acc, x))
    case _ => None
  }

  /** Only the five operators have a combining step. */
  lemma CombineDefinedOnOperators(op: Atom, acc: real, x: real, arith: Arith)
    ensures Combine(op, acc, x, arith).Some? <==> op.Op? && IsOperatorChar(op.op)
  {
    if op.Op? { OperatorCharsAreTheFive(op.op); }
  }

  /**
   * The left fold `((x0 op x1) op x2) ... op xn` that `sy.applyOp` computes:
   * `None` (JavaScript `null`) for no operands, the operand itself for one,
   * and 'Invalid operator' once a second operand meets an unknown operator.
   */
  function LeftFold(op: Atom, xs: seq<real>, arith: Arith): Result<Option<real>>
    decreases |xs|
  {
    if xs == [] then Ok(None)
    else if |xs| == 1 then Ok(Some(xs[0]))
    else
      match LeftFold(op, xs[..|xs| - 1], arith)
      case Err(e) => Err(e)
      case Ok(None) => Ok(None)
      case Ok(Some(acc)) =>
        match Combine(op, acc, xs[|xs| - 1], arith)
        case None => Err(InvalidOperator)
        case Some(v) => Ok(Some(v))
  }

  /** Once the fold has failed, later operands do not bring it back. */
  lemma {:induction false} LeftFoldErrorPersists(op: Atom, xs: seq<real>, ys: seq<real>, arith: Arith)
    requires LeftFold(op, xs, arith).Err?
    ensures LeftFold(op, xs + ys, arith) == LeftFold(op, xs, arith)
    decreases |ys|
  {
    if ys == [] {
      assert xs + ys == xs;
    } else {
      var zs := xs + ys;
      assert zs[..|zs| - 1] == xs + ys[..|ys| - 1];
      LeftFoldErrorPersists(op, xs, ys[..|ys| - 1], arith);
    }
  }

  /** With fewer than two operands the operator is never looked at. */
  lemma LeftFoldShort(op: Atom, arith: Arith, x: real)
    ensures LeftFold(op, [], arith) == Ok(None)
    ensures LeftFold(op, [x], arith) == Ok(Some(x))
  {
  }

  /**
   * The fold fails exactly when it has at least two operands and the
   * operator is not one of the five; otherwise it yields a number iff
   * there is at least one operand.
   */
  lemma {:induction false} LeftFoldFailsExactly(op: Atom, xs: seq<real>, arith: Arith)
    ensures LeftFold(op, xs, arith).Err? <==> |xs| >= 2 && !(op.Op? && IsOperatorChar(op.op))
    ensures LeftFold(op, xs, arith).Ok? ==> (LeftFold(op, xs, arith).value.Some? <==> xs != [])
    decreases |xs|
  {
    if |xs| >= 2 {
      LeftFoldFailsExactly(op, xs[..|xs| - 1], arith);
      match LeftFold(op, xs[..|xs| - 1], arith)
      case Err(_) =>
      case Ok(None) =>
      case Ok(Some(acc)) => CombineDefinedOnOperators(op, acc, xs[|xs| - 1], arith);
    }
  }

  /** The sum of the operands, grouped from the right. */
  function Sum(xs: seq<real>): real
  {
    if xs == [] then 0.0 else xs[0] + Sum(xs[1..])
  }

  lemma {:induction false} SumSnoc(xs: seq<real>, y: real)
    ensures Sum(xs + [y]) == Sum(xs) + y
  {
    if xs != [] {
      assert (xs + [y])[1..] == xs[1..] + [y];
      SumSnoc(xs[1..], y);
    }
  }

  /**
   * For `+` the left fold is the plain sum, so the grouping of the operands
   * does not matter.
   */
  lemma {:induction false} LeftFoldPlusIsSum(xs: seq<real>, arith: Arith)
    requires xs != []
    ensures LeftFold(Op('+'), xs, arith) == Ok(Some(Sum(xs)))
    decreases |xs|
  {
    if |xs| == 1 {
      assert xs == [] + [xs[0]];
      SumSnoc([], xs[0]);
    } else {
      var init := xs[..|xs| - 1];
      LeftFoldPlusIsSum(init, arith);
      assert xs == init + [xs[|xs| - 1]];
      SumSnoc(init, xs[|xs| - 1]);
    }
  }

  /** The defining step of a left fold: one more operand combines with the result so far. */
  lemma LeftFoldSnoc(op: Atom, xs: seq<real>, x: real, arith: Arith)
    requires LeftFold(op, xs, arith).Ok? && LeftFold(op, xs, arith).value.Some?
    ensures LeftFold(op, xs + [x], arith) ==
      match Combine(op, LeftFold(op, xs, arith).value.value, x, arith)
      case None => Err(InvalidOperator)
      case Some(v) => Ok(Some(v))
  {
    assert (xs + [x])[..|xs|] == xs;
  }

  /**
   * `sy.applyOp(op, operands)`: the `for` loop over the operands, keeping the
   * running `result` (`null` until the first operand is seen).
   */
  method ApplyOp(op: Atom, operands: seq<real>, arith: Arith) returns (r: Result<Option<real>>)
    ensures r == LeftFold(op, operands, arith)
  {
    var result: Option<real> := None;
    for i := 0 to |operands|
      invariant LeftFold(op, operands[..i], arith) == Ok(result)
      invariant result.None? <==> i == 0
    {
      assert operands[..i + 1][..i] == operands[..i];
      if result.None? {
        result := Some(operands[i]);
      } else {
        var next := Combine(op, result.value, operands[i], arith);
        if next.None? {
          LeftFoldErrorPersists(op, operands[..i + 1], operands[i + 1..], arith);
          assert operands[..i + 1] + operands[i + 1..] == operands;
          return Err(InvalidOperator);
        }
        result := next;
      }
    }
    assert operands[..|operands|] == operands;
    r := Ok(result);
  }
}
