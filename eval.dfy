/** `Expr.prototype.eval` / `_evalHelper` of `dist/symbolic.js`: substitution and partial numeric folding. */
module Evaluation {
  import opened Results
  import opened Values
  import opened Operators
  import opened Exprs

  /** What a leaf evaluates to: the substituted number if it is the variable, else its own value. */
  function LeafResult(a: Atom, x: Symbol, subVal: real): Atom
  {
    if a.Sym? && SymbolEquals(a.sym, SymbolObject(x)) then Num(subVal) else a
  }

  /** The numbers among the operand results, in order (`typeof evaledOperand === 'number'`). */
  function NumbersOf(rs: seq<Option<Atom>>): seq<real>
  {
    if rs == [] then []
    else
      var last := rs[|rs| - 1];
      NumbersOf(rs[..|rs| - 1]) + (if last.Some? && last.value.Num? then [last.value.n] else [])
  }

  lemma {:induction false} NumbersOfAppend(a: seq<Option<Atom>>, b: seq<Option<Atom>>)
    ensures NumbersOf(a + b) == NumbersOf(a) + NumbersOf(b)
    decreases |b|
  {
    if b == [] {
      assert a + b == a;
    } else {
      assert (a + b)[..|a + b| - 1] == a + b[..|b| - 1];
      NumbersOfAppend(a, b[..|b| - 1]);
    }
  }

  /** The values of a list of successful results. */
  function Successes(rs: seq<Result<Option<Atom>>>): (vs: seq<Option<Atom>>)
    requires forall i | 0 <= i < |rs| :: rs[i].Ok?
    ensures |vs| == |rs| && forall i | 0 <= i < |rs| :: rs[i] == Ok(vs[i])
  {
    seq(|rs|, i requires 0 <= i < |rs| => rs[i].value)
  }

  /** The results of evaluating each operand of `e`. */
  function OperandResults(e: Expr, x: Symbol, subVal: real, arith: Arith): (rs: seq<Result<Option<Atom>>>)
    ensures |rs| == |e.operands|
    ensures forall i | 0 <= i < |rs| :: rs[i] == Evaluate(e.operands[i], x, subVal, arith)
    decreases e, 0
  {
    seq(|e.operands|, i requires 0 <= i < |e.operands| => Evaluate(e.operands[i], x, subVal, arith))
  }

  /**
   * The meaning of `_evalHelper(x, subVal)`: a leaf gives its own value or
   * `subVal`; an operator node gives the left fold, under its own value, of
   * the operand results that are numbers, or `None` (`null`) if there are
   * none. The only thing that can throw is `applyOp`, on a node whose value
   * is not an operator.
   */
  function Evaluate(e: Expr, x: Symbol, subVal: real, arith: Arith): (r: Result<Option<Atom>>)
    ensures r.Err? ==> r.error == InvalidOperator
    ensures e.operands != [] && r.Ok? && r.value.Some? ==> r.value.value.Num?
    decreases e, 1
  {
    if e.operands == [] then Ok(Some(LeafResult(e.value, x, subVal)))
    else
      var rs := OperandResults(e, x, subVal, arith);
      if exists i | 0 <= i < |rs| :: rs[i].Err? then Err(InvalidOperator)
      else
        match LeftFold(e.value, NumbersOf(Successes(rs)), arith)
        case Err(_) => Err(InvalidOperator)
        case Ok(None) => Ok(None)
        case Ok(Some(v)) => Ok(Some(Num(v)))
  }

  /**
   * `_evalHelper`: a leaf gives `subVal` or its own value; an operator node
   * folds its operands' results.
   */
  method EvalHelper(e: Expr, x: Symbol, subVal: real, arith: Arith) returns (r: Result<Option<Atom>>)
    ensures r == Evaluate(e, x, subVal, arith)
    decreases e, 2
  {
    if |e.operands| == 0 {
      if e.value.Sym? && SymbolEquals(e.value.sym, SymbolObject(x)) {
        return Ok(Some(Num(subVal)));
      }
      return Ok(Some(e.value));
    }
    r := FoldOperands(e, x, subVal, arith);
  }

  /**
   * The loop of `_evalHelper` on an operator node: evaluate each operand in
   * turn and fold each numeric result into `evaluation`.
   */
  method FoldOperands(e: Expr, x: Symbol, subVal: real, arith: Arith) returns (r: Result<Option<Atom>>)
    requires e.operands != []
    ensures r == Evaluate(e, x, subVal, arith)
    decreases e, 1
  {
    ghost var results: seq<Option<Atom>> := [];
    var evaluation: Option<real> := None;
    var i := 0;
    while i < |e.operands|
      invariant 0 <= i <= |e.operands| && |results| == i
      invariant forall j | 0 <= j < i :: Evaluate(e.operands[j], x, subVal, arith) == Ok(results[j])
      invariant LeftFold(e.value, NumbersOf(results), arith) == Ok(evaluation)
    {
      var next, evaled := FoldOperand(e, i, results, evaluation, x, subVal, arith);
      if next.Err? {
        return Err(InvalidOperator);
      }
      evaluation := next.value;
      results := results + [evaled];
      i := i + 1;
    }
    EvaluateFromResults(e, x, subVal, arith, results);
    r := Ok(match evaluation case None => None case Some(v) => Some(Num(v)));
  }

  /**
   * One round of the loop: evaluate operand `i` and, if it gives a number,
   * fold it into `evaluation` (taken as it is while `evaluation` is `null`,
   * otherwise combined by `sy.applyOp`). An error here is an error of the
   * whole evaluation.
   */
  method FoldOperand(e: Expr, i: nat, ghost results: seq<Option<Atom>>, evaluation: Option<real>,
                     x: Symbol, subVal: real, arith: Arith)
    returns (next: Result<Option<real>>, ghost evaled: Option<Atom>)
    requires i < |e.operands| && |results| == i
    requires forall j | 0 <= j < i :: Evaluate(e.operands[j], x, subVal, arith) == Ok(results[j])
    requires LeftFold(e.value, NumbersOf(results), arith) == Ok(evaluation)
    ensures next.Err? ==> Evaluate(e, x, subVal, arith) == Err(InvalidOperator)
    ensures next.Ok? ==> Evaluate(e.operands[i], x, subVal, arith) == Ok(evaled)
    ensures next.Ok? ==> LeftFold(e.value, NumbersOf(results + [evaled]), arith) == next
    decreases e, 0
  {
    var operand := EvalHelper(e.operands[i], x, subVal, arith);
    if operand.Err? {
      OperandFailureFails(e, x, subVal, arith, i);
      return Err(InvalidOperator), None;
    }
    var value := operand.value;
    evaled := value;
    NumbersOfSnoc(results, value);
    if value.Some? && value.value.Num? {
      next := FoldIn(e.value, NumbersOf(results), evaluation, value.value.n, arith);
      if next.Err? {
        FoldFailureFails(e, x, subVal, arith, results + [value]);
      }
    } else {
      next := Ok(evaluation);
    }
  }

  /**
   * One numeric operand result `v` folded into `evaluation`: taken as it is
   * while `evaluation` is `null`, otherwise combined by `sy.applyOp`.
   */
  method FoldIn(op: Atom, ghost ns: seq<real>, evaluation: Option<real>, v: real, arith: Arith)
    returns (next: Result<Option<real>>)
    requires LeftFold(op, ns, arith) == Ok(evaluation)
    ensures next == LeftFold(op, ns + [v], arith)
  {
    FoldNext(op, ns, evaluation, v, arith);
    if evaluation.None? {
      next := Ok(Some(v));
    } else {
      next := ApplyOp(op, [evaluation.value, v], arith);
    }
  }

  /** One more operand result adds its number, if it is one, at the end. */
  lemma NumbersOfSnoc(rs: seq<Option<Atom>>, a: Option<Atom>)
    ensures a.Some? && a.value.Num? ==> NumbersOf(rs + [a]) == NumbersOf(rs) + [a.value.n]
    ensures !(a.Some? && a.value.Num?) ==> NumbersOf(rs + [a]) == NumbersOf(rs)
  {
    assert (rs + [a])[..|rs|] == rs;
    assert NumbersOf(rs) + [] == NumbersOf(rs);
  }

  /** The running `evaluation` after one more numeric operand result `v`. */
  lemma FoldNext(op: Atom, ns: seq<real>, evaluation: Option<real>, v: real, arith: Arith)
    requires LeftFold(op, ns, arith) == Ok(evaluation)
    ensures evaluation.None? ==> LeftFold(op, ns + [v], arith) == Ok(Some(v))
    ensures evaluation.Some? ==> LeftFold(op, ns + [v], arith) == LeftFold(op, [evaluation.value, v], arith)
  {
    LeftFoldFailsExactly(op, ns, arith);
    if evaluation.None? {
      assert ns + [v] == [v];
    } else {
      LeftFoldSnoc(op, ns, v, arith);
      LeftFoldSnoc(op, [evaluation.value], v, arith);
      assert [evaluation.value] + [v] == [evaluation.value, v];
    }
  }

  /** An operand whose evaluation throws makes the whole evaluation throw. */
  lemma OperandFailureFails(e: Expr, x: Symbol, subVal: real, arith: Arith, i: nat)
    requires i < |e.operands| && Evaluate(e.operands[i], x, subVal, arith).Err?
    ensures Evaluate(e, x, subVal, arith) == Err(InvalidOperator)
  {
    var rs := OperandResults(e, x, subVal, arith);
    assert rs[i].Err?;
  }

  /** When every operand evaluates, the node's result is the fold of their numeric results. */
  lemma EvaluateFromResults(e: Expr, x: Symbol, subVal: real, arith: Arith, results: seq<Option<Atom>>)
    requires e.operands != [] && |results| == |e.operands|
    requires forall j | 0 <= j < |results| :: Evaluate(e.operands[j], x, subVal, arith) == Ok(results[j])
    ensures Evaluate(e, x, subVal, arith) ==
      match LeftFold(e.value, NumbersOf(results), arith)
      case Err(_) => Err(InvalidOperator)
      case Ok(None) => Ok(None)
      case Ok(Some(v)) => Ok(Some(Num(v)))
  {
    var rs := OperandResults(e, x, subVal, arith);
    assert forall j | 0 <= j < |rs| :: rs[j].Ok?;
    assert Successes(rs) == results;
  }

  /**
   * Once the fold over the numeric results of a prefix of the operands has
   * failed, the whole evaluation fails, whatever the later operands give.
   */
  lemma FoldFailureFails(e: Expr, x: Symbol, subVal: real, arith: Arith, prefix: seq<Option<Atom>>)
    requires e.operands != [] && |prefix| <= |e.operands|
    requires forall j | 0 <= j < |prefix| :: Evaluate(e.operands[j], x, subVal, arith) == Ok(prefix[j])
    requires LeftFold(e.value, NumbersOf(prefix), arith).Err?
    ensures Evaluate(e, x, subVal, arith) == Err(InvalidOperator)
  {
    var rs := OperandResults(e, x, subVal, arith);
    if forall j | 0 <= j < |rs| :: rs[j].Ok? {
      var all := Successes(rs);
      assert all == prefix + all[|prefix|..];
      NumbersOfAppend(prefix, all[|prefix|..]);
      LeftFoldErrorPersists(e.value, NumbersOf(prefix), NumbersOf(all[|prefix|..]), arith);
    }
  }

  /** The symbol `eval` substitutes: a `Symbol` as given, or a bare name wrapped in one. */
  function VariableSymbol(variable: Value): Symbol
    requires variable.SymbolObject? || variable.Text?
  {
    if variable.SymbolObject? then variable.sym else Symbol(variable.s)
  }

  /** `Expr.prototype.eval(variable, subVal)`. The tree is a value, so it is left as it was. */
  method Eval(e: Expr, variable: Value, subVal: real, arith: Arith) returns (r: Result<Option<Atom>>)
    requires variable.SymbolObject? || variable.Text?
    ensures variable.Text? ==> r == Evaluate(e, Symbol(variable.s), subVal, arith)
    ensures variable.SymbolObject? ==> r == Evaluate(e, variable.sym, subVal, arith)
  {
    var sym := VariableSymbol(variable);
    r := EvalHelper(e, sym, subVal, arith);
  }

  /** A leaf gives `subVal` when it is the variable (compared by name) and its own value otherwise. */
  lemma EvaluateLeaf(a: Atom, x: Symbol, subVal: real, arith: Arith)
    ensures a == Sym(x) ==> Evaluate(Expr(a, []), x, subVal, arith) == Ok(Some(Num(subVal)))
    ensures a != Sym(x) ==> Evaluate(Expr(a, []), x, subVal, arith) == Ok(Some(a))
  {
  }

  /** A tree built by the constructor never makes `applyOp` throw. */
  lemma {:induction false} EvaluateValidSucceeds(e: Expr, x: Symbol, subVal: real, arith: Arith)
    requires Valid(e)
    ensures Evaluate(e, x, subVal, arith).Ok?
    decreases e
  {
    if e.operands != [] {
      forall j | 0 <= j < |e.operands| ensures Evaluate(e.operands[j], x, subVal, arith).Ok? {
        EvaluateValidSucceeds(e.operands[j], x, subVal, arith);
      }
      var results := Successes(OperandResults(e, x, subVal, arith));
      LeftFoldFailsExactly(e.value, NumbersOf(results), arith);
      EvaluateFromResults(e, x, subVal, arith, results);
    }
  }

  /**
   * A one-operand node is not negated: it gives its operand's number
   * unchanged (so `-3` evaluates to 3), and `None` when the operand is not
   * a number.
   */
  lemma EvaluateUnary(op: char, child: Expr, x: Symbol, subVal: real, arith: Arith)
    requires Evaluate(child, x, subVal, arith).Ok?
    ensures var c := Evaluate(child, x, subVal, arith).value;
      Evaluate(Expr(Op(op), [child]), x, subVal, arith) ==
        if c.Some? && c.value.Num? then Ok(Some(c.value)) else Ok(None)
  {
    var c := Evaluate(child, x, subVal, arith).value;
    EvaluateFromResults(Expr(Op(op), [child]), x, subVal, arith, [c]);
    assert [c] == [] + [c];
  }

  /**
   * Operand results that are not numbers are dropped, not kept in a
   * remaining expression: a number and a symbol other than the variable,
   * in either order, give just the number, whatever the operator.
   */
  lemma EvaluateDropsNonNumbers(op: char, n: real, y: Symbol, x: Symbol, subVal: real, arith: Arith)
    requires y != x
    ensures Evaluate(Expr(Op(op), [Expr(Num(n), []), Expr(Sym(y), [])]), x, subVal, arith) == Ok(Some(Num(n)))
    ensures Evaluate(Expr(Op(op), [Expr(Sym(y), []), Expr(Num(n), [])]), x, subVal, arith) == Ok(Some(Num(n)))
  {
    var num, sym := Some(Num(n)), Some(Sym(y));
    EvaluateLeaf(Num(n), x, subVal, arith);
    EvaluateLeaf(Sym(y), x, subVal, arith);
    NumbersOfSnoc([], num);
    NumbersOfSnoc([], sym);
    NumbersOfSnoc([num], sym);
    NumbersOfSnoc([sym], num);
    assert [] + [num] == [num] && [] + [sym] == [sym];
    assert [num] + [sym] == [num, sym] && [sym] + [num] == [sym, num];
    EvaluateFromResults(Expr(Op(op), [Expr(Num(n), []), Expr(Sym(y), [])]), x, subVal, arith, [num, sym]);
    EvaluateFromResults(Expr(Op(op), [Expr(Sym(y), []), Expr(Num(n), [])]), x, subVal, arith, [sym, num]);
  }

  /** An operator node none of whose operands comes out as a number gives `None` (`null`). */
  lemma EvaluateNoNumbers(e: Expr, x: Symbol, subVal: real, arith: Arith, results: seq<Option<Atom>>)
    requires e.operands != [] && |results| == |e.operands|
    requires forall j | 0 <= j < |results| :: Evaluate(e.operands[j], x, subVal, arith) == Ok(results[j])
    requires forall j | 0 <= j < |results| :: !(results[j].Some? && results[j].value.Num?)
    ensures Evaluate(e, x, subVal, arith) == Ok(None)
  {
    NoNumbers(results);
    EvaluateFromResults(e, x, subVal, arith, results);
  }

  lemma {:induction false} NoNumbers(rs: seq<Option<Atom>>)
    requires forall j | 0 <= j < |rs| :: !(rs[j].Some? && rs[j].value.Num?)
    ensures NumbersOf(rs) == []
  {
    if rs != [] {
      NoNumbers(rs[..|rs| - 1]);
    }
  }

  /**
   * A tree whose every symbol is the substituted variable and whose every
   * operator node has an operand evaluates to a number.
   */
  ghost predicate Closed(e: Expr, x: Symbol)
  {
    Valid(e)
    && (e.value.Sym? ==> e.value.sym == x)
    && (e.value.Op? ==> e.operands != [])
    && forall i | 0 <= i < |e.operands| :: Closed(e.operands[i], x)
  }

  lemma {:induction false} EvaluateClosed(e: Expr, x: Symbol, subVal: real, arith: Arith)
    requires Closed(e, x)
    ensures Evaluate(e, x, subVal, arith).Ok?
    ensures Evaluate(e, x, subVal, arith).value.Some? && Evaluate(e, x, subVal, arith).value.value.Num?
    decreases e
  {
    if e.operands != [] {
      forall j | 0 <= j < |e.operands|
        ensures Evaluate(e.operands[j], x, subVal, arith).Ok?
        ensures Evaluate(e.operands[j], x, subVal, arith).value.Some?
        ensures Evaluate(e.operands[j], x, subVal, arith).value.value.Num?
      {
        EvaluateClosed(e.operands[j], x, subVal, arith);
      }
      var results := Successes(OperandResults(e, x, subVal, arith));
      AllNumbers(results);
      LeftFoldFailsExactly(e.value, NumbersOf(results), arith);
      EvaluateFromResults(e, x, subVal, arith, results);
    }
  }

  lemma {:induction false} AllNumbers(rs: seq<Option<Atom>>)
    requires forall j | 0 <= j < |rs| :: rs[j].Some? && rs[j].value.Num?
    ensures |NumbersOf(rs)| == |rs|
  {
    if rs != [] {
      AllNumbers(rs[..|rs| - 1]);
    }
  }
}
