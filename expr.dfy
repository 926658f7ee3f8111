/** The `sy.Expr` node of `dist/symbolic.js`: its validating constructor and structural operations. */
module Exprs {
  import opened Results
  import opened Values
  import opened Operators

  /**
   * An expression-tree node: a `value` and its `operands`. A tree is a value;
   * the in-place updates of the original become functions and methods that
   * return the updated node.
   */
  datatype Expr = Expr(value: Atom, operands: seq<Expr>)

  /** An element of an operand list handed to the constructor or to `addOperands`. */
  datatype Arg = AnExpr(expr: Expr) | NotAnExpr(other: Value)

  /**
   * The shape the constructor guarantees at every node: an operator node
   * holds one of the five operators, any other node has no operands.
   */
  ghost predicate Valid(e: Expr)
  {
    (if e.value.Op? then IsOperatorChar(e.value.op) else e.operands == [])
    && forall i | 0 <= i < |e.operands| :: Valid(e.operands[i])
  }

  /** An operator value is a one-character string. */
  lemma OperatorIsOneChar(v: Value)
    requires IsOperator(v)
    ensures |v.s| == 1 && IsOperatorChar(v.s[0])
  {
    OperatorsAreTheFive(v);
    assert v.s == [v.s[0]];
  }

  /** The node value the constructor stores for an operator or terminal argument. */
  function AtomOf(v: Value): (a: Atom)
    requires IsOperator(v) || IsTerminal(v)
    ensures a.Op? <==> IsOperator(v)
    ensures a.Op? ==> IsOperatorChar(a.op) && v == Text([a.op])
  {
    match v
    case Number(n) => Num(n)
    case SymbolObject(s) => Sym(s)
    case Text(s) =>
      OperatorIsOneChar(v);
      assert s == [s[0]];
      Op(s[0])
  }

  /** Every element is an `Expr` instance. */
  predicate AllExprs(args: seq<Arg>)
  {
    forall i | 0 <= i < |args| :: args[i].AnExpr?
  }

  /** The expressions of an all-`Expr` argument list, in order. */
  function ExprsOf(args: seq<Arg>): (es: seq<Expr>)
    requires AllExprs(args)
    ensures |es| == |args| && forall i | 0 <= i < |args| :: args[i] == AnExpr(es[i])
  {
    seq(|args|, i requires 0 <= i < |args| => args[i].expr)
  }

  /** The argument list that hands over the given expressions. */
  function ArgsOf(es: seq<Expr>): (args: seq<Arg>)
    ensures AllExprs(args) && ExprsOf(args) == es
  {
    seq(|es|, i requires 0 <= i < |es| => AnExpr(es[i]))
  }

  /**
   * `Expr.prototype.addOperands`: check every new operand, then append them
   * all at the end. On a non-`Expr` element it fails before appending any.
   */
  method AddOperands(e: Expr, newOperands: seq<Arg>) returns (r: Result<Expr>)
    ensures r.Ok? <==> AllExprs(newOperands)
    ensures r.Err? ==> r.error == OperandsNotExpressions
    ensures r.Ok? ==> r.value.value == e.value && r.value.operands == e.operands + ExprsOf(newOperands)
  {
    for i := 0 to |newOperands|
      invariant forall j | 0 <= j < i :: newOperands[j].AnExpr?
    {
      if !newOperands[i].AnExpr? {
        return Err(OperandsNotExpressions);
      }
    }
    r := Ok(Expr(e.value, e.operands + ExprsOf(newOperands)));
  }

  /**
   * The `sy.Expr` constructor: `operands` is `None` when the argument is
   * omitted. Checks in the source's order: missing value, operator without
   * operands (else the operands are copied in through `addOperands`),
   * terminal with operands, anything else.
   */
  function Construct(value: Value, operands: Option<seq<Arg>>): (r: Result<Expr>)
    ensures r.Ok? ==> (IsOperator(value) || IsTerminal(value)) && r.value.value == AtomOf(value)
    ensures r.Ok? && (forall i | 0 <= i < |r.value.operands| :: Valid(r.value.operands[i])) ==> Valid(r.value)
  {
    if value.Undefined? then Err(MissingValue)
    else if IsOperator(value) then
      if operands.None? then Err(MissingOperands)
      else if !AllExprs(operands.value) then Err(OperandsNotExpressions)
      else Ok(Expr(AtomOf(value), ExprsOf(operands.value)))
    else if IsTerminal(value) then
      if operands.Some? then Err(UnexpectedOperands)
      else Ok(Expr(AtomOf(value), []))
    else Err(InvalidValue)
  }

  /** `new sy.Expr(value, operands)`, which starts from an empty operand list and calls `addOperands`. */
  method NewExpr(value: Value, operands: Option<seq<Arg>>) returns (r: Result<Expr>)
    ensures r == Construct(value, operands)
  {
    if value.Undefined? {
      return Err(MissingValue);
    }
    var node := Expr(Num(0.0), []);
    if IsOperator(value) {
      if operands.None? {
        return Err(MissingOperands);
      }
      node := Expr(AtomOf(value), []);
      r := AddOperands(node, operands.value);
      if r.Ok? {
        assert [] + ExprsOf(operands.value) == ExprsOf(operands.value);
      }
    } else if IsTerminal(value) {
      if operands.Some? {
        return Err(UnexpectedOperands);
      }
      r := Ok(Expr(AtomOf(value), []));
    } else {
      r := Err(InvalidValue);
    }
  }

  /** The constructor's error cases, each with the error the source raises. */
  lemma ConstructErrors(value: Value, operands: Option<seq<Arg>>)
    ensures value.Undefined? ==> Construct(value, operands) == Err(MissingValue)
    ensures IsOperator(value) && operands.None? ==> Construct(value, operands) == Err(MissingOperands)
    ensures IsOperator(value) && operands.Some? && !AllExprs(operands.value) ==>
      Construct(value, operands) == Err(OperandsNotExpressions)
    ensures IsTerminal(value) && operands.Some? ==> Construct(value, operands) == Err(UnexpectedOperands)
    ensures !value.Undefined? && !IsOperator(value) && !IsTerminal(value) ==> Construct(value, operands) == Err(InvalidValue)
    ensures Construct(value, operands).Ok? <==>
      (IsTerminal(value) && operands.None?) || (IsOperator(value) && operands.Some? && AllExprs(operands.value))
  {
    OperatorAndTerminalDisjoint(value);
  }

  /** Each of the five operators without operands is refused. */
  lemma OperatorsNeedOperands()
    ensures forall i | 0 <= i < |Ops| :: Construct(Text(Ops[i]), None) == Err(MissingOperands)
  {
    forall i | 0 <= i < |Ops| ensures Construct(Text(Ops[i]), None) == Err(MissingOperands) {
      OperatorsAreTheFive(Text(Ops[i]));
    }
  }

  /**
   * A successful construction stores the value and a copy of the operands
   * in order; a terminal gets an empty operand list, and an operator node
   * may be given an empty one.
   */
  lemma ConstructStores(value: Value, operands: Option<seq<Arg>>)
    requires Construct(value, operands).Ok?
    ensures IsTerminal(value) ==> Construct(value, operands) == Ok(Expr(AtomOf(value), []))
    ensures IsOperator(value) ==> Construct(value, operands) == Ok(Expr(AtomOf(value), ExprsOf(operands.value)))
  {
    OperatorAndTerminalDisjoint(value);
  }

  /** JavaScript's `splice(index, 1)` start position for a list of length `len`. */
  function SpliceStart(index: int, len: nat): (s: nat)
    ensures s <= len
    ensures 0 <= index <= len ==> s == index
    ensures -(len as int) <= index < 0 ==> s == len + index
  {
    if index < 0 then (if len + index < 0 then 0 else len + index)
    else if index > len then len
    else index
  }

  /**
   * `Expr.prototype.removeOperand(index)`: `this.operands.splice(index, 1)[0]`.
   * Returns the removed operand (`None` when the index is past the end) and
   * the updated node.
   */
  function RemoveOperand(e: Expr, index: int): (r: (Option<Expr>, Expr))
    ensures r.1.value == e.value
    ensures 0 <= index < |e.operands| ==>
      r.0 == Some(e.operands[index]) && r.1.operands == e.operands[..index] + e.operands[index + 1..]
    ensures -|e.operands| <= index < 0 ==>
      r.0 == Some(e.operands[|e.operands| + index])
      && r.1.operands == e.operands[..|e.operands| + index] + e.operands[|e.operands| + index + 1..]
    ensures index >= |e.operands| ==> r == (None, e)
    ensures index < -|e.operands| && e.operands != [] ==> r.0 == Some(e.operands[0]) && r.1.operands == e.operands[1..]
    ensures e.operands == [] ==> r == (None, e)
    ensures r.0.Some? <==> e.operands != [] && index < |e.operands|
    ensures r.0.Some? ==>
      |r.1.operands| == |e.operands| - 1 && multiset(r.1.operands) + multiset{r.0.value} == multiset(e.operands)
  {
    var ops := e.operands;
    var start := SpliceStart(index, |ops|);
    if start < |ops| then
      assert ops == ops[..start] + [ops[start]] + ops[start + 1..];
      (Some(ops[start]), Expr(e.value, ops[..start] + ops[start + 1..]))
    else (None, e)
  }

  /** Removing the operand that was just appended gives back the node as it was. */
  lemma RemoveUndoesAppend(e: Expr, x: Expr)
    ensures RemoveOperand(Expr(e.value, e.operands + [x]), |e.operands|) == (Some(x), e)
  {
    var ops := e.operands + [x];
    assert ops[..|e.operands|] + ops[|e.operands| + 1..] == e.operands;
  }

  /** The value of a node as a JavaScript value, as `Symbol.equals` receives it. */
  function AsValue(a: Atom): Value
  {
    match a
    case Num(n) => Number(n)
    case Sym(s) => SymbolObject(s)
    case Op(c) => Text([c])
  }

  /**
   * `Expr.prototype.equals`: values compared with `===`, falling back on
   * `this.value.equals(other.value)`, which only a `Symbol` value has (a
   * number or operator string throws); then the operand counts, then the
   * operands pairwise from the left, stopping at the first that differs.
   */
  function Equals(a: Expr, b: Expr): (r: Result<bool>)
    ensures r == Ok(true) ==> a == b
    ensures (a.value.Num? || a.value.Op?) && a.value != b.value ==> r == Err(EqualsOnPrimitive)
    ensures a.value.Sym? && a.value != b.value ==> r == Ok(false)
    decreases a, 1
  {
    if a.value != b.value && !a.value.Sym? then Err(EqualsOnPrimitive)
    else if !(a.value == b.value || SymbolEquals(a.value.sym, AsValue(b.value))) then Ok(false)
    else if |a.operands| != |b.operands| then Ok(false)
    else
      var r := EqualsFrom(a, b, 0);
      assert r == Ok(true) ==> a.operands == b.operands;
      r
  }

  /** The `for` loop of `equals` from operand `i` on. */
  function EqualsFrom(a: Expr, b: Expr, i: nat): (r: Result<bool>)
    requires |a.operands| == |b.operands| && i <= |a.operands|
    ensures r == Ok(true) ==> forall j | i <= j < |a.operands| :: a.operands[j] == b.operands[j]
    decreases a, 0, |a.operands| - i
  {
    if i == |a.operands| then Ok(true)
    else
      match Equals(a.operands[i], b.operands[i])
      case Err(e) => Err(e)
      case Ok(false) => Ok(false)
      case Ok(true) => EqualsFrom(a, b, i + 1)
  }

  /** Every tree equals itself (numbers are reals here, so there is no NaN). */
  lemma {:induction false} EqualsReflexive(a: Expr)
    ensures Equals(a, a) == Ok(true)
    decreases a, 1
  {
    EqualsFromReflexive(a, 0);
  }

  lemma {:induction false} EqualsFromReflexive(a: Expr, i: nat)
    requires i <= |a.operands|
    ensures EqualsFrom(a, a, i) == Ok(true)
    decreases a, 0, |a.operands| - i
  {
    if i < |a.operands| {
      EqualsReflexive(a.operands[i]);
      EqualsFromReflexive(a, i + 1);
    }
  }

  /**
   * `equals` is structural equality where it answers true: it holds exactly
   * for equal trees, so it is also symmetric and transitive there; when it
   * is true the values, the operand counts and every pair of operands agree.
   */
  lemma EqualsIsStructural(a: Expr, b: Expr)
    ensures Equals(a, b) == Ok(true) <==> a == b
    ensures Equals(a, b) == Ok(true) ==>
      a.value == b.value && |a.operands| == |b.operands| &&
      forall i | 0 <= i < |a.operands| :: Equals(a.operands[i], b.operands[i]) == Ok(true)
  {
    if a == b {
      EqualsReflexive(a);
      forall i | 0 <= i < |a.operands| ensures Equals(a.operands[i], b.operands[i]) == Ok(true) {
        EqualsReflexive(a.operands[i]);
      }
    }
  }
}
