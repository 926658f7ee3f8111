/** The values an expression node can hold, and the JavaScript values the API can be handed. */
module Values {

  /** `sy.Symbol`: a variable, compared by name. */
  datatype Symbol = Symbol(symbolName: string)

  /**
   * A JavaScript value as it reaches the `Expr` constructor, `Symbol.equals`
   * or `eval`: `undefined`, a number, a `Symbol` object, a string, or
   * anything else (booleans, `null`, arrays, other objects).
   */
  datatype Value = Undefined | Number(n: real) | SymbolObject(sym: Symbol) | Text(s: string) | Other

  /** What a node of an expression tree holds: a number, a symbol or an operator character. */
  datatype Atom = Num(n: real) | Sym(sym: Symbol) | Op(op: char)

  /** `Symbol.prototype.equals`: `other instanceof Symbol && this.symbolName === other.symbolName`. */
  predicate SymbolEquals(self: Symbol, other: Value)
  {
    other.SymbolObject? && self.symbolName == other.sym.symbolName
  }

  /** Symbol equality is name equality, so it is exactly equality of the symbol values. */
  lemma SymbolEqualsIsIdentity(self: Symbol, other: Value)
    ensures SymbolEquals(self, other) <==> other == SymbolObject(self)
  {
  }

  /** Symbol equality is an equivalence on symbols. */
  lemma SymbolEqualsEquivalence(a: Symbol, b: Symbol, c: Symbol)
    ensures SymbolEquals(a, SymbolObject(a))
    ensures SymbolEquals(a, SymbolObject(b)) ==> SymbolEquals(b, SymbolObject(a))
    ensures SymbolEquals(a, SymbolObject(b)) && SymbolEquals(b, SymbolObject(c)) ==> SymbolEquals(a, SymbolObject(c))
  {
  }
}
