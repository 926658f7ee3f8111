/** Outcomes of the operations that can throw in the original code. */
module Results {

  /** `None` plays the part of JavaScript's `null` / `undefined` results. */
  datatype Option<+T> = None | Some(value: T)

  /** One variant per error the code raises (or, for the last two, per TypeError it runs into). */
  datatype Error =
    | MissingValue            // 'Expression must have a value.'
    | MissingOperands         // 'An expression with an operator as a value must have operands.'
    | UnexpectedOperands      // 'An expression without an operator as a value cannot have operands.'
    | InvalidValue            // 'Invalid value for expression.'
    | OperandsNotExpressions  // 'Operands must be expressions.'
    | InvalidOperator         // 'Invalid operator'
    | InvalidNumber(run: string)  // 'Invalid number ' + the offending run
    | MismatchedParentheses   // 'Found mismatched parentheses while parsing expression.'
    | MalformedExpression     // 'Malformed expression.'
    | EqualsOnPrimitive       // TypeError: `.equals` called on a number or an operator string
    | NoExpression            // TypeError: the parse produced no tree and `undefined` is flattened

  datatype Result<+T> = Ok(value: T) | Err(error: Error)
}
