/** `sy._flattenExpr` of `src/parse.js`: splicing same-operator children into `+` and `*` nodes. */
module Flatten {
  import opened Results
  import opened Values
  import opened Operators
  import opened Exprs

  /** The number of nodes of a tree. */
  function Size(e: Expr): nat
    decreases e
  {
    1 + SumSizes(e.operands)
  }

  function SumSizes(es: seq<Expr>): nat
    decreases es
  {
    if es == [] then 0 else Size(es[0]) + SumSizes(es[1..])
  }

  /** The operands from position `i` on; none once `i` is past the end. */
  function Rest(es: seq<Expr>, i: nat): seq<Expr>
  {
    if i < |es| then es[i..] else []
  }

  lemma {:induction false} SumSizesAppend(a: seq<Expr>, b: seq<Expr>)
    ensures SumSizes(a + b) == SumSizes(a) + SumSizes(b)
  {
    if a == [] {
      assert a + b == b;
    } else {
      assert (a + b)[0] == a[0] && (a + b)[1..] == a[1..] + b;
      SumSizesAppend(a[1..], b);
    }
  }

  lemma SumSizesSplit(es: seq<Expr>, i: nat)
    requires i < |es|
    ensures SumSizes(es) == SumSizes(es[..i]) + Size(es[i]) + SumSizes(es[i + 1..])
    ensures SumSizes(es[i..]) == Size(es[i]) + SumSizes(es[i + 1..])
  {
    assert es == es[..i] + es[i..];
    assert es[i..][1..] == es[i + 1..];
    SumSizesAppend(es[..i], es[i..]);
  }

  lemma {:induction false} SumSizesDrop(es: seq<Expr>, k: nat)
    ensures SumSizes(Rest(es, k)) <= SumSizes(es)
    decreases k
  {
    if k > 0 && k < |es| {
      SumSizesDrop(es, k - 1);
      SumSizesSplit(es, k - 1);
      assert Rest(es, k - 1) == es[k - 1..];
    }
  }

  /**
   * One round of the loop when operand `i` is spliced: `addOperands` puts
   * the child's operands at the end, then `removeOperand(i)` takes the child
   * out, leaving the other operands in order followed by the child's.
   */
  lemma SpliceShape(v: Atom, ops: seq<Expr>, i: nat, child: Expr)
    requires i < |ops|
    ensures RemoveOperand(Expr(v, ops[i := child] + child.operands), i).1.operands
      == ops[..i] + ops[i + 1..] + child.operands
  {
    var ops2 := ops[i := child] + child.operands;
    assert ops2[..i] + ops2[i + 1..] == ops[..i] + ops[i + 1..] + child.operands;
  }

  /** A tree outweighs its operands together. */
  lemma SizeOfNode(e: Expr)
    ensures Size(e) == 1 + SumSizes(e.operands)
  {
  }

  /** The operands after `i` followed by the child's operands weigh less than the operands from `i` on. */
  lemma SpliceTailShrinks(ops: seq<Expr>, i: nat, child: Expr)
    requires i < |ops| && Size(child) <= Size(ops[i])
    ensures SumSizes(ops[i + 1..] + child.operands) < SumSizes(Rest(ops, i))
  {
    SizeOfNode(child);
    SumSizesSplit(ops, i);
    SumSizesAppend(ops[i + 1..], child.operands);
  }

  /** After a splice the operands still to visit weigh less, and the total weight drops. */
  lemma SpliceShrinks(ops: seq<Expr>, i: nat, child: Expr)
    requires i < |ops| && Size(child) <= Size(ops[i])
    ensures var spliced := ops[..i] + ops[i + 1..] + child.operands;
      SumSizes(Rest(spliced, i + 1)) < SumSizes(Rest(ops, i)) && SumSizes(spliced) < SumSizes(ops)
  {
    var tail := ops[i + 1..] + child.operands;
    var spliced := ops[..i] + tail;
    assert ops[..i] + ops[i + 1..] + child.operands == spliced;
    SpliceTailShrinks(ops, i, child);
    SumSizesSplit(ops, i);
    SumSizesAppend(ops[..i], tail);
    assert Rest(spliced, i + 1) == Rest(tail, 1) by {
      if i + 1 < |spliced| {
        assert spliced[i + 1..] == tail[1..];
      }
    }
    SumSizesDrop(tail, 1);
  }

  /** Replacing operand `i` by a tree no larger does not make the list heavier. */
  lemma ReplaceShrinks(ops: seq<Expr>, i: nat, child: Expr)
    requires i < |ops| && Size(child) <= Size(ops[i])
    ensures SumSizes(ops[i := child]) <= SumSizes(ops)
    ensures SumSizes(Rest(ops[i := child], i + 1)) < SumSizes(Rest(ops, i))
  {
    SumSizesSplit(ops, i);
    SumSizesSplit(ops[i := child], i);
    assert ops[i := child][..i] == ops[..i] && ops[i := child][i + 1..] == ops[i + 1..];
  }

  /**
   * What `_flattenExpr` makes of a tree: a node without operands is returned
   * as it is, any other node gets its operand loop.
   */
  function FlattenSpec(e: Expr): (r: Expr)
    ensures r.value == e.value
    ensures e.operands == [] ==> r == e
    ensures Size(r) <= Size(e)
    decreases Size(e), 0
  {
    if e.operands == [] then e
    else Expr(e.value, FlattenLoop(e.value, e.operands, 0))
  }

  /**
   * The `for` loop of `_flattenExpr` from index `i` on, over the node's
   * current operand list `ops`: flatten operand `i`; if the node's operator
   * is unordered and the flattened operand carries the same value, append
   * its operands and remove it. Either way `i` then moves on, so after a
   * removal the operand that slid into place `i` is not visited.
   */
  function FlattenLoop(v: Atom, ops: seq<Expr>, i: nat): (r: seq<Expr>)
    ensures SumSizes(r) <= SumSizes(ops)
    decreases SumSizes(Rest(ops, i)), 1
  {
    if i >= |ops| then ops
    else
      SumSizesSplit(ops, i);
      var child := FlattenSpec(ops[i]);
      ReplaceShrinks(ops, i, child);
      var ops1 := ops[i := child];
      if !IsOpOrdered(v) && child.value == v then
        SpliceShape(v, ops, i, child);
        SpliceShrinks(ops, i, child);
        var ops3 := RemoveOperand(Expr(v, ops1 + child.operands), i).1.operands;
        FlattenLoop(v, ops3, i + 1)
      else
        FlattenLoop(v, ops1, i + 1)
  }

  /**
   * `sy._flattenExpr(expr)`: rewrites the node's operand list in place with
   * `addOperands` and `removeOperand`, recursing into each operand first.
   */
  method FlattenExpr(e: Expr) returns (r: Expr)
    ensures r == FlattenSpec(e)
    decreases Size(e)
  {
    if |e.operands| == 0 {
      return e;
    }
    var node := e;
    var i := 0;
    while i < |node.operands|
      invariant node.value == e.value
      invariant SumSizes(node.operands) <= SumSizes(e.operands)
      invariant FlattenLoop(e.value, node.operands, i) == FlattenLoop(e.value, e.operands, 0)
      decreases SumSizes(Rest(node.operands, i))
    {
      SumSizesSplit(node.operands, i);
      var child := FlattenExpr(node.operands[i]);
      ReplaceShrinks(node.operands, i, child);
      var ops := node.operands;
      node := Expr(node.value, node.operands[i := child]);
      if !IsOpOrdered(node.value) && child.value == node.value {
        SpliceShape(node.value, ops, i, child);
        SpliceShrinks(ops, i, child);
        var added := AddOperands(node, ArgsOf(child.operands));
        var removed := RemoveOperand(added.value, i);
        node := removed.1;
      }
      i := i + 1;
    }
    r := node;
  }

  /** The non-operator values of a tree, with their multiplicities. */
  function Leaves(e: Expr): multiset<Atom>
    decreases e
  {
    (if e.value.Op? then multiset{} else multiset{e.value}) + LeavesOf(e.operands)
  }

  function LeavesOf(es: seq<Expr>): multiset<Atom>
    decreases es
  {
    if es == [] then multiset{} else Leaves(es[0]) + LeavesOf(es[1..])
  }

  lemma {:induction false} LeavesOfAppend(a: seq<Expr>, b: seq<Expr>)
    ensures LeavesOf(a + b) == LeavesOf(a) + LeavesOf(b)
  {
    if a == [] {
      assert a + b == b;
    } else {
      assert (a + b)[0] == a[0] && (a + b)[1..] == a[1..] + b;
      LeavesOfAppend(a[1..], b);
    }
  }

  lemma LeavesOfSplit(es: seq<Expr>, i: nat)
    requires i < |es|
    ensures LeavesOf(es) == LeavesOf(es[..i]) + (Leaves(es[i]) + LeavesOf(es[i + 1..]))
  {
    var tail := es[i..];
    assert tail[0] == es[i] && tail[1..] == es[i + 1..];
    assert LeavesOf(tail) == Leaves(es[i]) + LeavesOf(es[i + 1..]);
    assert es == es[..i] + tail;
    LeavesOfAppend(es[..i], tail);
  }

  /** Replacing an operand by a tree with the same leaves keeps the leaves of the list. */
  lemma ReplaceKeepsLeaves(ops: seq<Expr>, i: nat, child: Expr)
    requires i < |ops| && Leaves(child) == Leaves(ops[i])
    ensures LeavesOf(ops[i := child]) == LeavesOf(ops)
  {
    var ops1 := ops[i := child];
    LeavesOfSplit(ops, i);
    LeavesOfSplit(ops1, i);
    assert ops1[..i] == ops[..i] && ops1[i + 1..] == ops[i + 1..];
  }

  /** Splicing an operator node's operands in its place keeps the leaves of the list. */
  lemma SpliceKeepsLeaves(ops: seq<Expr>, i: nat, child: Expr)
    requires i < |ops| && child.value.Op? && Leaves(child) == Leaves(ops[i])
    ensures LeavesOf(ops[..i] + ops[i + 1..] + child.operands) == LeavesOf(ops)
  {
    LeavesOfSplit(ops, i);
    LeavesOfAppend(ops[..i] + ops[i + 1..], child.operands);
    LeavesOfAppend(ops[..i], ops[i + 1..]);
    assert Leaves(child) == LeavesOf(child.operands);
  }

  ghost predicate AllValid(es: seq<Expr>)
  {
    forall j | 0 <= j < |es| :: Valid(es[j])
  }

  /**
   * Flattening a well-formed tree gives a well-formed tree with the same
   * numbers and symbols, each as often as before: only operator nodes are
   * dissolved into their parents.
   */
  lemma {:induction false} FlattenPreserves(e: Expr)
    requires Valid(e)
    ensures Valid(FlattenSpec(e)) && Leaves(FlattenSpec(e)) == Leaves(e)
    decreases Size(e), 0
  {
    if e.operands != [] {
      FlattenLoopPreserves(e.value, e.operands, 0);
    }
  }

  lemma {:induction false} FlattenLoopPreserves(v: Atom, ops: seq<Expr>, i: nat)
    requires v.Op? && AllValid(ops)
    ensures AllValid(FlattenLoop(v, ops, i)) && LeavesOf(FlattenLoop(v, ops, i)) == LeavesOf(ops)
    decreases SumSizes(Rest(ops, i)), 1
  {
    if i < |ops| {
      SumSizesSplit(ops, i);
      var child := FlattenSpec(ops[i]);
      FlattenPreserves(ops[i]);
      ReplaceShrinks(ops, i, child);
      var ops1 := ops[i := child];
      ReplaceKeepsLeaves(ops, i, child);
      if !IsOpOrdered(v) && child.value == v {
        SpliceShape(v, ops, i, child);
        SpliceShrinks(ops, i, child);
        SpliceKeepsLeaves(ops, i, child);
        var ops3 := ops[..i] + ops[i + 1..] + child.operands;
        SpliceKeepsValid(ops, i, child);
        assert FlattenLoop(v, ops, i) == FlattenLoop(v, ops3, i + 1);
        FlattenLoopPreserves(v, ops3, i + 1);
      } else {
        assert AllValid(ops1) by {
          forall j | 0 <= j < |ops1|
            ensures Valid(ops1[j])
          {
            if j != i { assert ops1[j] == ops[j]; }
          }
        }
        assert FlattenLoop(v, ops, i) == FlattenLoop(v, ops1, i + 1);
        FlattenLoopPreserves(v, ops1, i + 1);
      }
    }
  }

  lemma SpliceKeepsValid(ops: seq<Expr>, i: nat, child: Expr)
    requires i < |ops| && AllValid(ops) && Valid(child)
    ensures AllValid(ops[..i] + ops[i + 1..] + child.operands)
  {
    var ops3 := ops[..i] + ops[i + 1..] + child.operands;
    forall j | 0 <= j < |ops3|
      ensures Valid(ops3[j])
    {
      if j < i {
        assert ops3[j] == ops[j];
      } else if j < |ops| - 1 {
        assert ops3[j] == ops[j + 1];
      } else {
        assert ops3[j] == child.operands[j - (|ops| - 1)];
      }
    }
  }

  /**
   * A node whose operator is ordered (`-`, `/`, `^`), or none of whose
   * operands carries its own value, keeps its operands one for one, each
   * flattened in turn.
   */
  lemma FlattenKeepsShape(e: Expr)
    requires IsOpOrdered(e.value) || forall j | 0 <= j < |e.operands| :: e.operands[j].value != e.value
    ensures |FlattenSpec(e).operands| == |e.operands|
    ensures forall j | 0 <= j < |e.operands| :: FlattenSpec(e).operands[j] == FlattenSpec(e.operands[j])
  {
    if e.operands != [] {
      FlattenLoopKeepsShape(e.value, e.operands, 0);
    }
  }

  lemma {:induction false} FlattenLoopKeepsShape(v: Atom, ops: seq<Expr>, i: nat)
    requires i <= |ops|
    requires IsOpOrdered(v) || forall j | i <= j < |ops| :: ops[j].value != v
    ensures |FlattenLoop(v, ops, i)| == |ops|
    ensures forall j | 0 <= j < i :: FlattenLoop(v, ops, i)[j] == ops[j]
    ensures forall j | i <= j < |ops| :: FlattenLoop(v, ops, i)[j] == FlattenSpec(ops[j])
    decreases |ops| - i
  {
    if i < |ops| {
      var ops1 := ops[i := FlattenSpec(ops[i])];
      FlattenLoopKeepsShape(v, ops1, i + 1);
    }
  }

  function Leaf(a: Atom): Expr
  {
    Expr(a, [])
  }

  /** One round of the loop that splices operand `i`. */
  lemma LoopSpliceStep(v: Atom, ops: seq<Expr>, i: nat)
    requires i < |ops| && !IsOpOrdered(v) && FlattenSpec(ops[i]).value == v
    ensures FlattenLoop(v, ops, i) == FlattenLoop(v, ops[..i] + ops[i + 1..] + FlattenSpec(ops[i]).operands, i + 1)
  {
    SpliceShape(v, ops, i, FlattenSpec(ops[i]));
  }

  /** One round of the loop that keeps operand `i`, flattened. */
  lemma LoopKeepStep(v: Atom, ops: seq<Expr>, i: nat)
    requires i < |ops| && !(!IsOpOrdered(v) && FlattenSpec(ops[i]).value == v)
    ensures FlattenLoop(v, ops, i) == FlattenLoop(v, ops[i := FlattenSpec(ops[i])], i + 1)
  {
  }

  /** The loop leaves a run of leaves as it is. */
  lemma {:induction false} LoopOverLeaves(v: Atom, ops: seq<Expr>, i: nat)
    requires v.Op?
    requires forall j | i <= j < |ops| :: ops[j].operands == [] && !ops[j].value.Op?
    ensures FlattenLoop(v, ops, i) == ops
    decreases |ops| - i
  {
    if i < |ops| {
      LoopKeepStep(v, ops, i);
      assert ops[i := FlattenSpec(ops[i])] == ops;
      LoopOverLeaves(v, ops, i + 1);
    }
  }

  /**
   * A `+` or `*` node whose first operand is the same operator over two
   * leaves: that operand is spliced, its leaves go to the end, and the
   * second operand slides into its place and is skipped, whatever it is.
   * So `(a+b)+(c+d)` gives `+(+(c, d), a, b)`, still holding a `+` child,
   * and `+(+(2.54, x), y)`, which the parser builds for `2.54+x+y`, gives
   * `+(y, 2.54, x)`.
   */
  lemma FlattenSkipsShiftedOperand(op: char, a: Expr, b: Expr, second: Expr)
    requires op == '+' || op == '*'
    requires a.operands == [] && !a.value.Op? && b.operands == [] && !b.value.Op?
    ensures FlattenSpec(Expr(Op(op), [Expr(Op(op), [a, b]), second])) == Expr(Op(op), [second, a, b])
  {
    var first := Expr(Op(op), [a, b]);
    var spliced := [second, a, b];
    FlattenLeafPair(op, a, b);
    OrderedOperators(op);
    LoopSpliceStep(Op(op), [first, second], 0);
    assert [first, second][..0] + [first, second][1..] + first.operands == spliced;
    LoopOverLeaves(Op(op), spliced, 1);
  }

  /** A node over two leaves is already flat. */
  lemma FlattenLeafPair(op: char, a: Expr, b: Expr)
    requires a.operands == [] && !a.value.Op? && b.operands == [] && !b.value.Op?
    ensures FlattenSpec(Expr(Op(op), [a, b])) == Expr(Op(op), [a, b])
  {
    LoopOverLeaves(Op(op), [a, b], 0);
  }
}
