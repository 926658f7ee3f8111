# symbolic.js in Dafny

A model of the core of symbolic.js, a small symbolic-algebra library. The
model covers four parts:

- **The operator table** of `sy`: the five operators `+ - * ^ /`, which of
  them are "ordered", their precedences, and `sy.applyOp`, which left-folds a
  list of numbers with one operator.
- **The expression tree** of `dist/symbolic.js`:
  - `sy.Symbol` with `equals`;
  - `sy.Expr` with its validating constructor, `addOperands`,
    `removeOperand`, structural `equals`, and the evaluator
    `eval` / `_evalHelper`, which substitutes a number for one symbol and
    folds the numeric operand results.
- **The older constructor** of `src/expr.js`.
- **The parser** of `src/parse.js`:
  - `sy.parse` strips whitespace;
  - `sy._dijkstraParse` runs the shunting-yard loop over two `sy._Stack`s,
    and `sy._popOper` reduces one operator;
  - the number and letter scanners insert an implicit `*`;
  - `sy._flattenExpr` splices same-operator children of `+` and `*` nodes.

How the code becomes Dafny:

- An expression tree is a Dafny datatype (`Exprs.Expr`), built from
  `Values.Atom`: a number, a symbol or an operator character.
- JavaScript values handed to the API are `Values.Value`.
- Every error the code throws is a variant of `Results.Error` inside a
  `Result`. So are the two TypeErrors the code runs into:
  - `.equals` called on a primitive;
  - flattening `undefined` after an empty parse.
- `sy._Stack` is a class with a `seq` field (`Stacks.Stack`).
- The loops of the source are methods with loop invariants, each proved
  equal to a specification function. Properties are then proved about those
  functions:
  - `applyOp`: `Operators.ApplyOp` is proved equal to `LeftFold`.
  - The parse loop: `Parser.DijkstraParse` is proved equal to
    `ShuntingYard.Run`.
  - The flatten loop: `Flatten.FlattenExpr` is proved equal to
    `FlattenSpec` / `FlattenLoop`.
  - The evaluation loop: `Evaluation.EvalHelper` is proved equal to
    `Evaluate`.

Where the behaviour of the code differs from what its comments, tests or
documentation suggest, the model follows the code:

- **Left nesting.** The operator branch reduces while the incoming precedence
  is `<=` the top's (src/parse.js:114-117). So operators of equal precedence
  nest to the left: `a-b-c` is `-(-(a,b),c)`, and `a+b-c` is
  `-(+(a,b),c)` (`ParseExamples.ParseNestsLeft`, for letter operands).
- **Skipped operand in flattening.** `_flattenExpr` appends the spliced
  grandchildren, removes operand `i` and still advances `i`. The operand that
  slides into place `i` is therefore never visited
  (`Flatten.FlattenSkipsShiftedOperand`):
  - `a+b+c` gives `+(c,a,b)`, not `+(a,b,c)`
    (`ParseExamples.ParseFlattensChain`, for letter operands);
  - `(a+b)+(c+d)` still holds a `+` child after flattening, so the function
    is not idempotent.
- **Whitespace.** It is removed before scanning, so `2 2` is the number 22
  (`ParseExamples.ParseJoinsDigits`).
- **Letters.** Every letter is its own one-letter symbol, and `xy` is
  `*(x,y)`.
- **Dangling operators.** A leading or trailing operator becomes a unary node.
  A lone operator fails: `_popOper` hands `undefined` to the constructor.
- **Dropped operands in `eval`.** The documentation of `eval`
  (dist/symbolic.js:179-180) promises the number the expression evaluates
  to or the remaining expression. The code never returns a remaining
  expression (dist/symbolic.js:197-208): an operator node folds only the
  operand results that are numbers and drops the rest. So `x+y` at `x = 2`
  gives 2 (`Evaluation.EvaluateDropsNonNumbers`), and a node with no
  numeric operand result gives `null` (`Evaluation.EvaluateNoNumbers`).
- **Unary nodes in `eval`.** A one-operand node evaluates to its operand's
  value, with no negation (`Evaluation.EvaluateUnary`).

The files are:

- `results.dfy`: `Result` and `Error`.
- `values.dfy`: `Symbol`, `Value` and `Atom`.
- `operators.dfy`: the operator table and `applyOp`.
- `expr.dfy`: the `Expr` node.
- `legacy.dfy`: the constructor of `src/expr.js`.
- `chars.dfy`: the character classes, whitespace stripping, `insertInStr`
  and number runs.
- `stack.dfy`: `sy._Stack`.
- `shunting.dfy`: the functional specification of the parse loop.
- `parser.dfy`: the imperative parser.
- `flatten.dfy`: `_flattenExpr`.
- `parse_facts.dfy`: properties of every successful parse.
- `parse_examples.dfy`: `sy.parse` worked through on families of small
  inputs.
- `eval.dfy`: `eval`.

## Model

| member | source | states |
|---|---|---|
| Values.SymbolEqualsIsIdentity | dist/symbolic.js:91-93 | `Symbol.equals(o)` holds iff `o` is a Symbol with the same name, i.e. exactly when `o` is that symbol value |
| Values.SymbolEqualsEquivalence | dist/symbolic.js:91-93 | symbol equality is reflexive, symmetric and transitive |
| Operators.IndexOf | src/sy.js:18 | `indexOf` yields the first position of the element, or -1 exactly when the element is absent |
| Operators.IsOperatorByIndex | src/sy.js:17-19 | the `indexOf(value) > -1` test is membership in `_OPS`, and only strings can pass it |
| Operators.OperatorsAreTheFive | src/sy.js:7-19 | `isOperator` holds for exactly the five strings `+ - * ^ /` |
| Operators.OperatorCharsAreTheFive | src/sy.js:17-19 | on a one-character string, `isOperator` holds exactly for the five operator characters |
| Operators.OperatorAndTerminalDisjoint | src/sy.js:17-28 | no value is both an operator and a terminal (a number or a Symbol); `undefined` is neither |
| Operators.OrderedOperators | src/sy.js:8 | `isOpOrdered` is true for `-`, `/`, `^` and false for `+`, `*` and for every other key |
| Operators.PrecedenceOrder | src/sy.js:9 | `^` > `*` = `/` > `+` = `-` > `(`: `+` and `-` are at most every operator, `*` and `/` are at most every operator but `+` and `-`, every operator is at most `^` and at most `*` unless it is `^`; every operator strictly outranks `(`, so it never reduces a `(` |
| Operators.CombineDefinedOnOperators | src/sy.js:52-70 | the `switch` has a case exactly for the five operators; everything else reaches `default` |
| Operators.LeftFoldShort | src/sy.js:47-51 | the fold of no operands is `null` and of one operand is that operand, whatever the operator |
| Operators.LeftFoldFailsExactly | src/sy.js:52-70 | 'Invalid operator' is raised iff there are at least two operands and the operator is unknown; otherwise the result is non-null iff there is an operand |
| Operators.LeftFoldErrorPersists | src/sy.js:48-72 | once the fold has thrown, further operands do not change the outcome |
| Operators.LeftFoldPlusIsSum | src/sy.js:53-55 | for `+` the left fold is the plain sum of the operands |
| Operators.ApplyOp | src/sy.js:46-74 | the `for` loop over the operands computes the left fold, including the 'Invalid operator' exit |
| Exprs.OperatorIsOneChar | src/sy.js:7 | every operator value is a one-character string holding an operator character |
| Exprs.AtomOf | dist/symbolic.js:107 | the stored node value is an operator exactly when the argument is an operator string, and it holds that string's character |
| Exprs.AddOperands | dist/symbolic.js:162-169 | fails with 'Operands must be expressions.' iff some element is not an `Expr`, appending nothing; otherwise appends the new operands at the end, in order, leaving the old ones and the value untouched |
| Exprs.Construct | dist/symbolic.js:103-123 | a successful construction holds an operator or terminal value; if the operands are well formed, so is the node |
| Exprs.NewExpr | dist/symbolic.js:103-123 | the constructor's sequence of checks, followed by `addOperands` on a fresh empty list, gives the outcome `Construct` describes |
| Exprs.ConstructErrors | dist/symbolic.js:104-121 | each error message for its case (missing value, operator without operands, non-`Expr` operand, terminal with operands, invalid value), and success exactly for a terminal without operands or an operator with all-`Expr` operands |
| Exprs.OperatorsNeedOperands | dist/symbolic.js:109-113 | every one of the five operators without an operand list raises the "must have operands" error |
| Exprs.ConstructStores | dist/symbolic.js:107-119 | a terminal node stores its value and no operands; an operator node stores a copy of the given operands, in order |
| Exprs.SpliceStart | dist/symbolic.js:154 | `splice`'s start index: kept when in range, counted from the end when negative, clamped to the length |
| Exprs.RemoveOperand | dist/symbolic.js:153-155 | `removeOperand(i)` returns operand `i` and leaves the others in order, one fewer; a negative index counts from the end, again leaving the others in order; an index below minus the length removes the first operand, as `splice` clamps it to 0; an empty list is left unchanged; an index past the end returns `undefined` and changes nothing; the multiset of operands is kept |
| Exprs.RemoveUndoesAppend | dist/symbolic.js:153-169 | removing the last operand after appending one gives back that operand and the original node |
| Exprs.Equals | dist/symbolic.js:131-145 | `true` only for equal trees; a number or operator value that differs from the other value throws (`.equals` on a primitive); a differing symbol gives `false` |
| Exprs.EqualsFrom | dist/symbolic.js:137-142 | the operand loop returns `true` only if the operands from `i` on are pairwise equal |
| Exprs.EqualsReflexive | dist/symbolic.js:131-145 | every tree equals itself, without an exception |
| Exprs.EqualsIsStructural | dist/symbolic.js:131-145 | `equals` is `true` iff the trees are equal; then the values match, the operand counts agree and the operands are pairwise `equals` |
| LegacyExpr.Make | src/expr.js:42-64 | a node built by the older constructor keeps its value; a terminal gets no operands; an operator keeps the caller's list as given |
| LegacyExpr.LegacyOperators | src/expr.js:2 | the older operator list is `+ * ^ /`, a subset of `sy._OPS` |
| LegacyExpr.MinusIsInvalid | src/expr.js:61-62 | `-` is neither an older operator nor a terminal, so it raises 'Invalid value for expression.' |
| LegacyExpr.LegacyOperatorsNeedOperands | src/expr.js:47-51 | each older operator without operands raises the "must have operands" error |
| LegacyExpr.MakeOutcomes | src/expr.js:43-63 | the outcome for every kind of value: missing value, terminal with or without operands, operator with operands (stored unchecked, even when empty), invalid value |
| Chars.StripWhitespace | src/parse.js:167 | the stripped text is no longer, holds no whitespace and only characters of the input |
| Chars.StripWhitespaceKeepsOthers | src/parse.js:167 | every non-whitespace character is kept as often as it occurs |
| Chars.StripWhitespaceIdle | src/parse.js:167 | a text without whitespace is left alone |
| Chars.InsertInStr | src/parse.js:60-63 | `insertInStr(s, i, t)` is `s[..i] + t + s[i..]`, with `t` appended when `i` is past the end; the length grows by `|t|` |
| Chars.RunEnd | src/parse.js:86-90 | the inner `while` stops at the end of the maximal run of digits and `.` |
| Chars.RunEndUnique | src/parse.js:86-90 | a run's end is determined by its two properties |
| Chars.NumeralIff | src/parse.js:95-97 | a run of digits and points is accepted as a number iff it has a digit and at most one `.` |
| Chars.NumeralPoint | src/parse.js:98 | a numeral with a point has only digits on each side of its first point, either side possibly empty (`.48`, `5.`) |
| Stacks.Stack.constructor | src/parse.js:14-16 | a new stack is empty |
| Stacks.Stack.Length | src/parse.js:18-20 | the length is the number of items |
| Stacks.Stack.Push | src/parse.js:22-24 | `push` appends the item on top and returns the new length |
| Stacks.Stack.Pop | src/parse.js:26-29 | `pop` returns the top item and removes it; on an empty stack it returns `undefined` and leaves the stack empty |
| Stacks.Stack.Peek | src/parse.js:31-33 | `peek` returns the top item, or `undefined` when the stack is empty, and reads nothing else |
| Stacks.PushThenPop | src/parse.js:22-29 | `push` then `pop` returns the pushed item and restores the previous contents |
| ShuntingYard.LeavesAreConstructed | src/parse.js:79-98 | the leaves the scanner pushes are what the constructor builds for a Symbol or a number with no operands |
| ShuntingYard.OperatorAtom | src/parse.js:113-118 | an operator character read from the text becomes the node value `Op` of that character |
| ShuntingYard.PopOperSpec | src/parse.js:41-51 | `_popOper` pops exactly one operator; with one output entry it builds a unary node; with more it builds `op(earlier, later)` and the output shrinks by one; with no output entry it fails with 'Operands must be expressions.' |
| ShuntingYard.PopOperFacts | src/parse.js:41-51 | those outcomes are what the constructor returns for the popped operator and operands |
| ShuntingYard.AfterTerm | src/parse.js:81-83 | inserting the implicit `*` before a following letter adds at most one unit of weight (the loop measure) |
| Parser.PopOper | src/parse.js:41-51 | the stack-based `_popOper` changes the two stacks as `PopOperSpec` says, or fails with its error |
| Parser.InsertStar | src/parse.js:82 | after the insertion, the text from the index on is `*` followed by the old rest |
| Parser.ScanNumber | src/parse.js:85-90 | the inner loop collects exactly the maximal run of digits and points and stops at its end |
| Parser.CloseParen | src/parse.js:102-111 | the `)` branch pops operators down to the `(` and removes it, or fails with mismatched parentheses on an empty stack |
| Parser.ReduceBefore | src/parse.js:114-117 | the reduce loop of the operator branch pops while the new operator's precedence is `<=` the top's |
| Parser.FinishStacks | src/parse.js:124-133 | the end of the parse: pops all operators, failing on a `(`; fails on more than one tree; returns the tree, or `undefined` for none |
| Parser.DijkstraParse | src/parse.js:71-134 | the main `while` loop, which rewrites the text with `insertInStr` and updates the two stacks, computes `DijkstraSpec` |
| Parser.Parse | src/parse.js:166-171 | `sy.parse` strips whitespace, parses and flattens, as `ParseSpec` says |
| Flatten.FlattenSpec | src/parse.js:145-159 | flattening keeps the node's value, returns a terminal unchanged and never grows the tree |
| Flatten.FlattenLoop | src/parse.js:150-157 | the loop from index `i` never grows the operand list's total size |
| Flatten.FlattenExpr | src/parse.js:145-159 | the in-place loop with `addOperands` and `removeOperand` computes `FlattenSpec` |
| Flatten.FlattenPreserves | src/parse.js:145-159 | flattening a well-formed tree gives a well-formed tree with the same multiset of leaves |
| Flatten.FlattenLoopPreserves | src/parse.js:150-157 | the loop keeps every operand well formed and the multiset of leaves unchanged |
| Flatten.FlattenKeepsShape | src/parse.js:150-157 | a node of an ordered operator, or one with no same-valued child, keeps its operand count and order, each operand flattened |
| Flatten.FlattenLoopKeepsShape | src/parse.js:150-157 | the same from index `i` on: earlier operands are untouched, later ones are flattened in place |
| Flatten.SpliceShape | src/parse.js:154-155 | `addOperands` then `removeOperand(i)` leaves the other operands in order, followed by the child's operands |
| Flatten.SpliceKeepsLeaves | src/parse.js:154-155 | splicing a child in keeps the multiset of leaves |
| Flatten.LoopOverLeaves | src/parse.js:150-157 | a run of leaves passes through the loop unchanged |
| Flatten.FlattenLeafPair | src/parse.js:147-157 | a node over two leaves is already flat |
| Flatten.FlattenSkipsShiftedOperand | src/parse.js:150-157 | for `+` or `*`, `op(op(a, b), s)` flattens to `op(s, a, b)`: the shifted operand `s` is skipped, whatever it is |
| ParseFacts.PopOperKeepsValid | src/parse.js:41-51 | reducing one operator keeps every output tree well formed |
| ParseFacts.ReduceToParenValid | src/parse.js:103-110 | the `)` branch keeps the output well formed |
| ParseFacts.ReduceForOperatorValid | src/parse.js:114-117 | the operator branch keeps the output well formed |
| ParseFacts.FinishValid | src/parse.js:124-133 | the tree returned at the end is well formed |
| ParseFacts.AppendLeafValid | src/parse.js:79 | pushing a leaf keeps the output well formed |
| ParseFacts.RunValid | src/parse.js:76-123 | every tree the main loop produces is well formed |
| ParseFacts.ParseValid | src/parse.js:166-171 | every tree `sy.parse` returns is well formed: operator nodes hold one of the five operators, and leaves have no operands |
| ParseFacts.NodeKeepsLeaves | src/parse.js:46-50 | replacing operands on the output by a node over them keeps the multiset of leaves |
| ParseFacts.PopOperKeepsLeaves | src/parse.js:41-51 | `_popOper` keeps the multiset of leaves on the output |
| ParseFacts.ReduceToParenLeaves | src/parse.js:103-110 | the `)` branch keeps the multiset of leaves |
| ParseFacts.ReduceForOperatorLeaves | src/parse.js:114-117 | the operator branch keeps the multiset of leaves |
| ParseFacts.FinishLeaves | src/parse.js:124-133 | the final tree holds exactly the leaves left on the output |
| ParseFacts.PushLeafLeaves | src/parse.js:79 | pushing a leaf adds exactly that leaf |
| ParseFacts.AfterTermKeeps | src/parse.js:81-83 | inserting `*` changes the count of no other character |
| ParseFacts.RunLetters | src/parse.js:76-123 | each letter of the remaining text becomes exactly one Symbol leaf of the result |
| ParseFacts.ParseKeepsLetters | src/parse.js:166-171 | the tree `sy.parse` returns holds a leaf for letter `c` exactly as often as the input holds `c` |
| ParseFacts.PopOperKeepsOpens | src/parse.js:41-51 | `_popOper` never removes a `(` |
| ParseFacts.ReduceToParenOpens | src/parse.js:102-111 | the `)` branch removes exactly one `(` |
| ParseFacts.ReduceForOperatorOpens | src/parse.js:114-117 | the operator branch removes no `(` |
| ParseFacts.FinishOpens | src/parse.js:124-127 | the end of the parse succeeds only with no `(` left on the stack |
| ParseFacts.CloseWithoutOpenFails | src/parse.js:103-109 | a `)` with no `(` on the stack fails, with mismatched parentheses when the stack is empty |
| ParseFacts.FinishRejectsOpen | src/parse.js:124-127 | a `(` left on the stack makes the end of the parse fail, with mismatched parentheses when it is on top |
| ParseFacts.RunParens | src/parse.js:76-123 | a successful run closes exactly the `(` it opens together with those already on the stack |
| ParseFacts.ParseBalanced | src/parse.js:166-171 | every input `sy.parse` accepts has as many `(` as `)` |
| ParseFacts.AfterTermContains | src/parse.js:81-83 | the insertion drops no character of the text |
| ParseFacts.RunAlphabet | src/parse.js:76-122 | a successful run reads only letters, digits, points, brackets, operators and inserted `*` |
| ParseFacts.ParseAlphabet | src/parse.js:166-171 | every input `sy.parse` accepts consists of whitespace and those characters only |
| ParseExamples.ParsePlain | src/parse.js:166-171 | on a text without whitespace, `sy.parse` is the flattened result of the parse loop |
| ParseExamples.OperatorReduces | src/parse.js:112-119 | an operator whose precedence is `<=` the top's reduces it first |
| ParseExamples.ReduceOnce | src/parse.js:114-117 | the reduce loop over one operator and two outputs builds one node and stops on the empty stack |
| ParseExamples.FinishOne | src/parse.js:124-133 | one operator over one output ends as a unary node |
| ParseExamples.FinishThree | src/parse.js:124-133 | two stacked operators over three outputs end as `op1(x, op2(y, z))` |
| ParseExamples.RunBinary | src/parse.js:71-134 | `a op b` parses to `op(a, b)` |
| ParseExamples.ParseBinary | src/parse.js:166-171 | `sy.parse` of `a op b` is `op(a, b)` |
| ParseExamples.FirstTerm | src/parse.js:77-119 | `a op ...` from empty stacks outputs `a` and pushes `op` |
| ParseExamples.RunTwoTerms | src/parse.js:77-119 | `a op1 b op2 ...` reaches `op2` with `a`, `b` on the output and `op1` on the stack |
| ParseExamples.RunNestsLeft | src/parse.js:114-117 | when `op2` binds no tighter than `op1`, `a op1 b op2 c` nests to the left, so `a-b-c` is `-(-(a,b),c)` |
| ParseExamples.RunNestsRight | src/parse.js:112-133 | when `op2` binds tighter, `a op1 b op2 c` is `op1(a, op2(b, c))` |
| ParseExamples.ShiftThenFinish | src/parse.js:112-133 | a tighter operator is pushed over the looser one and both are reduced at the end |
| ParseExamples.PrecedenceReflexive | src/sy.js:9 | every operator's precedence is at most its own, so equal operators reduce |
| ParseExamples.FlattenTwoLevels | src/parse.js:150-157 | a two-level tree whose inner operator differs from the outer one, or whose outer operator is ordered, is already flat |
| ParseExamples.ParseFiveLeft | src/parse.js:166-171 | `sy.parse` of `a op1 b op2 c` with `op2` no tighter is the flattened left-nested tree |
| ParseExamples.ParseFiveRight | src/parse.js:166-171 | with `op2` tighter it is the flattened right-nested tree |
| ParseExamples.ParseNestsLeft | src/parse.js:114-117 | `a-b-c` and `a+b-c` come out of `sy.parse` left-nested, unflattened |
| ParseExamples.ParseNestsRight | src/parse.js:112-133 | `a+b*c` comes out of `sy.parse` as `+(a, *(b, c))` |
| ParseExamples.ParseFlattensChain | src/parse.js:150-157 | `sy.parse` of `a+b+c` is `+(c, a, b)`, and likewise for `*`, because flattening skips the shifted operand |
| ParseExamples.OperatorFirst | src/parse.js:112-119 | a leading operator is pushed onto the empty stack |
| ParseExamples.FlattenUnary | src/parse.js:147-157 | a unary node over a leaf is already flat |
| ParseExamples.RunLeadingOperator | src/parse.js:45-47 | `op a` leaves one output for the operator, which becomes a unary node |
| ParseExamples.ParseLeadingOperator | src/parse.js:45-47 | `sy.parse` of `-x` is the unary node `-(x)` |
| ParseExamples.ParseTrailingOperator | src/parse.js:124-129 | `sy.parse` of `x+` is the unary node `+(x)` |
| ParseExamples.ParseLoneOperator | src/parse.js:42-46 | a lone operator is reduced with no operand, and the constructor rejects the `undefined` operand |
| ParseExamples.ParseNothing | src/parse.js:166-169 | a blank input, or `()`, yields no tree, and flattening `undefined` fails |
| ParseExamples.ParseUnclosed | src/parse.js:125-126 | `(a` fails with mismatched parentheses |
| ParseExamples.ParseUnopened | src/parse.js:106-108 | `a)` fails with mismatched parentheses |
| ParseExamples.ParenGroup | src/parse.js:99-111 | `(a)` leaves `a` on the output and nothing on the stack |
| ParseExamples.RunTwoTrees | src/parse.js:130-132 | `(a)b` leaves two trees, which the end of the loop rejects |
| ParseExamples.ParseTwoTrees | src/parse.js:130-132 | `sy.parse` of `(a)b` fails with 'Malformed expression.' |
| ParseExamples.ParseStrayCharacter | src/parse.js:120-121 | any other single character fails with 'Malformed expression.' |
| ParseExamples.ParseLetterPair | src/parse.js:81-83 | `xy` is `*(x, y)`: each letter is its own symbol, with `*` inserted |
| ParseExamples.ParseNumberRun | src/parse.js:84-98 | a text that is one run of digits and points parses to its number, or fails with 'Invalid number' and the run |
| ParseExamples.StripWhitespaceAppend | src/parse.js:167 | stripping distributes over concatenation |
| ParseExamples.ParseStripped | src/parse.js:166-168 | `sy.parse` only sees the stripped text |
| ParseExamples.ParseJoinsDigits | src/parse.js:167 | digits on both sides of whitespace join into one number, so `2 2` is 22 |
| ParseExamples.LeadingPointValue | src/parse.js:98 | `.ds` is a numeral whose value is `ds` scaled down by its length |
| ParseExamples.ParseLeadingPoint | src/parse.js:84-98 | `.48` parses to 0.48 |
| ParseExamples.ParseTwoPoints | src/parse.js:95-97 | `1.2.3` fails with 'Invalid number 1.2.3' |
| ParseExamples.RunDigitThenLetter | src/parse.js:91-94 | a digit before a letter is pushed with `*` inserted after it |
| ParseExamples.ParseDigitThenLetter | src/parse.js:91-94 | `2x` is `*(2, x)` |
| Evaluation.Evaluate | dist/symbolic.js:189-209 | evaluation can only fail with 'Invalid operator'; an operator node gives a number or `null`, never a remaining expression |
| Evaluation.NumbersOfAppend | dist/symbolic.js:200 | the numeric results of two lists of operands are those of each, in order |
| Evaluation.EvalHelper | dist/symbolic.js:189-209 | the recursive `_evalHelper` computes `Evaluate` |
| Evaluation.FoldOperands | dist/symbolic.js:197-208 | the loop over the operands computes `Evaluate` on an operator node |
| Evaluation.FoldOperand | dist/symbolic.js:199-206 | one round evaluates operand `i` and folds it in if it is a number, or the whole evaluation fails |
| Evaluation.FoldIn | dist/symbolic.js:201-205 | the first number starts the fold; later ones go through `applyOp` on two operands, which matches the left fold over all of them |
| Evaluation.FoldNext | dist/symbolic.js:201-205 | folding pairwise with `applyOp(op, [evaluation, x])` is the left fold of the whole list |
| Evaluation.OperandFailureFails | dist/symbolic.js:199 | an operand that throws makes the whole evaluation throw |
| Evaluation.FoldFailureFails | dist/symbolic.js:204 | a fold that throws part-way makes the whole evaluation throw |
| Evaluation.EvaluateFromResults | dist/symbolic.js:197-208 | an operator node left-folds the numeric operand results, in order, and is `null` when there is none |
| Evaluation.Eval | dist/symbolic.js:182-187 | `eval` wraps a bare variable name as a Symbol and evaluates without changing the tree |
| Evaluation.EvaluateLeaf | dist/symbolic.js:190-196 | a leaf gives `subVal` when it is the variable's symbol, and otherwise its own value |
| Evaluation.EvaluateValidSucceeds | dist/symbolic.js:189-209 | a well-formed tree evaluates without an exception |
| Evaluation.EvaluateUnary | dist/symbolic.js:197-208 | a one-operand node yields its operand's number unchanged, with no negation, and `null` when the operand is not a number |
| Evaluation.EvaluateDropsNonNumbers | dist/symbolic.js:197-208 | a number operand beside a symbol that is not the variable gives just that number, in either order and under any operator: the symbol is dropped |
| Evaluation.EvaluateNoNumbers | dist/symbolic.js:197-208 | a node none of whose operands evaluates to a number evaluates to `null` |
| Evaluation.NoNumbers | dist/symbolic.js:200 | results with no number leave nothing to fold |
| Evaluation.AllNumbers | dist/symbolic.js:200 | results that are all numbers are all folded |
| Evaluation.EvaluateClosed | dist/symbolic.js:189-209 | a well-formed tree whose only symbol is the variable evaluates to a number |

## Left out

- Floating point:
  - Numbers are exact reals. Division and `Math.pow` are parameters of the
    model (`Operators.Arith`), because IEEE-754 doubles do not match real
    arithmetic (rounding, Infinity, NaN).
  - `Chars.NumberValue` gives the exact decimal value of a numeral, where
    `Number()` rounds it to the nearest double.
- Chars.NumberValue: covers only the numerals the scanner can produce (digits with at most one point), not the rest of `Number()`'s grammar.
- `NaN`: trees holding `NaN` are not modelled. `Exprs.Equals` compares
  numbers by value.
- Symbol identity: a `Symbol` is compared by name, as `Symbol.equals` does.
  Object identity of symbols is not modelled, so `===` between two Symbol
  objects with the same name counts as equal.
- In-place updates and aliasing:
  - `Expr` is a value, so the updates of `addOperands`, `removeOperand` and
    `_flattenExpr` return the new node instead of changing a shared object.
  - Aliasing between trees, such as the operand list the older constructor
    stores without copying, is therefore not modelled.
- JavaScript accidents:
  - The leaked globals `op`, `operand1`, `operand2`, `newStr`, `expr` and
    `evaledOperand` are not modelled.
  - The two TypeErrors the code runs into are error variants
    (`EqualsOnPrimitive`, `NoExpression`), not exceptions of another kind.
- Exprs.Equals: the other argument is always an `Expr`, so the `false` that
  `equals` returns for a non-`Expr` argument is not modelled.
- Exprs.Construct: an `operands` argument that is given but is not an array
  is not modelled; `Construct` and `AddOperands` take only a missing list or a
  list of arguments. What `addOperands` does with such a value depends on it:
  - `null` throws a TypeError at `.length`;
  - a number, a boolean or the empty string throws a TypeError in
    `push.apply`;
  - a non-empty string throws 'Operands must be expressions.', since its
    characters are not `Expr`s;
  - an object without `length` is accepted and adds no operands;
  - an array-like object is accepted with its elements.
- LegacyExpr.Make: takes a missing operand list or a list of values. For a
  legacy operator, the older constructor stores any operands argument other
  than `undefined` unchanged, `null` and non-arrays included; those are not
  modelled.
- Evaluation.Eval: a `variable` argument that is neither a string nor a Symbol is excluded by its precondition.
  The source wraps any value with `new sy.Symbol(variable)`, and such a symbol's name is not a string.
- Character classes:
  - `_isAlpha` and `_isDigitOrDecPoint` are ASCII predicates on one
    character, not regular expressions.
  - `\s` is the list of whitespace characters written out in
    `Chars.IsWhitespace`.
  - Strings are sequences of characters, not of UTF-16 code units.
- `sy._OP_NAMES` and `OP_NAMES` are unused by the code and are not modelled.
- The duplicated parser and flattener in `dist/symbolic.js` are modelled once,
  from `src/parse.js`.
- Gruntfile.js is not part of this model: it holds build and test-runner
  configuration.
