/**
 * The older constructor of `src/expr.js`: its operator list lacks `-`, and an
 * operator node keeps the caller's operand list as it is, unchecked.
 */
module LegacyExpr {
  import opened Results
  import opened Values
  import Operators

  /** `OPS` of `src/expr.js`. */
  const LegacyOps: seq<string> := ["+", "*", "^", "/"]

  /** `isOperator` of `src/expr.js`. */
  predicate IsLegacyOperator(v: Value)
  {
    v.Text? && Operators.IndexOf(LegacyOps, v.s) > -1
  }

  /** A node as `src/expr.js` builds it: the value as given, and the operand list as given. */
  datatype Node = Node(value: Value, operands: seq<Value>)

  /**
   * `function Expr(value, operands)` of `src/expr.js`; `operands` is `None`
   * when the argument is omitted.
   */
  function Make(value: Value, operands: Option<seq<Value>>): (r: Result<Node>)
    ensures r.Ok? ==> r.value.value == value
    ensures r.Ok? && Operators.IsTerminal(value) ==> r.value.operands == []
    ensures r.Ok? && IsLegacyOperator(value) ==> operands.Some? && r.value.operands == operands.value
  {
    if value.Undefined? then Err(MissingValue)
    else if IsLegacyOperator(value) then
      if operands.None? then Err(MissingOperands) else Ok(Node(value, operands.value))
    else if Operators.IsTerminal(value) then
      if operands.Some? then Err(UnexpectedOperands) else Ok(Node(value, []))
    else Err(InvalidValue)
  }

  /** The legacy operators are `+ * ^ /`: `-` is not among them. */
  lemma LegacyOperators(v: Value)
    ensures IsLegacyOperator(v) <==> v in {Text("+"), Text("*"), Text("^"), Text("/")}
    ensures IsLegacyOperator(v) ==> Operators.IsOperator(v)
  {
    if v.Text? && v.s in LegacyOps {
      assert Operators.IndexOf(LegacyOps, v.s) > -1;
    }
    Operators.OperatorsAreTheFive(v);
  }

  /** `-` is refused as an invalid value, with or without operands. */
  lemma MinusIsInvalid(operands: Option<seq<Value>>)
    ensures Make(Text("-"), operands) == Err(InvalidValue)
  {
    LegacyOperators(Text("-"));
  }

  /** Every legacy operator given without operands is refused. */
  lemma LegacyOperatorsNeedOperands()
    ensures forall i | 0 <= i < |LegacyOps| :: Make(Text(LegacyOps[i]), None) == Err(MissingOperands)
  {
    forall i | 0 <= i < |LegacyOps| ensures Make(Text(LegacyOps[i]), None) == Err(MissingOperands) {
      LegacyOperators(Text(LegacyOps[i]));
    }
  }

  /**
   * The error cases: a missing value; a terminal with operands; anything
   * that is neither a legacy operator nor a terminal. An operator node
   * accepts any operand list, the empty one included.
   */
  lemma MakeOutcomes(value: Value, operands: Option<seq<Value>>)
    ensures value.Undefined? ==> Make(value, operands) == Err(MissingValue)
    ensures Operators.IsTerminal(value) && operands.Some? ==> Make(value, operands) == Err(UnexpectedOperands)
    ensures Operators.IsTerminal(value) && operands.None? ==> Make(value, operands) == Ok(Node(value, []))
    ensures IsLegacyOperator(value) && operands.Some? ==> Make(value, operands) == Ok(Node(value, operands.value))
    ensures !value.Undefined? && !IsLegacyOperator(value) && !Operators.IsTerminal(value) ==>
      Make(value, operands) == Err(InvalidValue)
  {
  }
}
