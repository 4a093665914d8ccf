# Boolean-expression engine and truth-table fill, in Dafny

This project models the engine behind a truth-table generator. It has five parts:

- The tokenizer (`tokanize`) trims the input and deletes its spaces. It then cuts the rest into one-character tokens for `* ⊕ + ! ( )` and name tokens, which are maximal runs of other characters.
- The parser (`parseToExpr`) lays the tokens out in a working list. Variables go in as finished leaves. Each operator goes in as an empty node, with its base precedence plus 5 for every enclosing parenthesis. The parser then joins the leftmost empty operator of strictly highest precedence with its neighbours, over and over, until one entry is left. It returns the "breakdown": each distinct variable once, in order of first appearance, then every operator node in the order it was joined.
- The evaluator (`evalExpr`), `containsVariable` and both `numOfVariables`.
- The printer (`toString`/`exprToString`). It wraps a node in parentheses when the node's stored precedence exceeds the current check, and then raises the check by 5.
- The operator table (`Operator`): the four truth functions, precedence, arity, associativity and `fromSymbol`.

The truth table (`TruthTable`) is a grid of 2^n + 1 rows with one column per breakdown entry:

- Row 0 holds the printed entries.
- The variable columns count in binary, using the source's block counter.
- Every other column is evaluated row by row.

Modules, following the source's structure:

- `Operators`: Operator.java.
- `Expressions`: the tree, evaluation, `containsVariable` and `numOfVariables`.
- `Tokenizer`.
- `Parser`.
- `Printer`.
- `RoundTrip`: the parser and printer together.
- `Bits`: binary counting.
- `TruthTables`: TruthTable.java.
- `Scenarios`: worked examples.
- `Seqs` and `Options`: small helpers.

A binary node's `lTerm` holds the operand to the RIGHT of the operator and `rTerm` the one to its LEFT, exactly as the source stores them. The source's mutable `currentValue` is replaced by an environment from names to integers. An unset name reads as 0, the field's initial value.

## Model

| member | source | states |
|---|---|---|
| Operators.Eval | Operator.java:12-41 | Every operator's rule returns 0 or 1 for any integer operands. The sums in the rules are Java `int` sums (`Operators.AddInt32`). On bits it returns 1 exactly when the boolean truth function holds: NOT negates, AND needs both, XOR needs them to differ, OR needs either. |
| Operators.AddInt32 | Operator.java:23-39 | Java's `int` addition: the result lies in the 32-bit range, differs from the exact sum by a multiple of 2^32, and is the exact sum whenever that fits. |
| Operators.SumsWrapAround | Operator.java:20-41 | On large operands the rules see the wrapped sum: OR of `Integer.MAX_VALUE` and 1 is 0, AND of `MIN_VALUE` and `MIN_VALUE + 2` is 1, XOR of `MIN_VALUE` and `MIN_VALUE + 1` is 1. |
| Operators.NotIgnoresSecondOperand | Operator.java:12-17 | NOT's result does not depend on its second operand, and on a bit `a` it is `1 - a`. |
| Operators.TruthTables | Operator.java:12-41 | The complete 0/1 tables of NOT, AND, XOR and OR. |
| Operators.OperatorAttributes | Operator.java:12-53 | Precedence is strictly NOT > AND > XOR > OR ≥ 1, so no two operators share one. The arity is 1 exactly for NOT and 2 for the others. Only NOT is not left-associative. |
| Operators.FromSymbol | Operator.java:56-71 | The lookup succeeds exactly on "!", "*", "⊕" and "+", and returns the absent value (the source's null) for every other string. A found operator's symbol is the string looked up. |
| Operators.SymbolRoundTrip | Operator.java:56-71 | Looking up an operator's own symbol gives back that operator. |
| Operators.SymbolInjective | Operator.java:56-62 | Different operators have different symbols. |
| Operators.AllOperators | Operator.java:74-76 | The collection holds every operator, four in all. |
| Expressions.BasePrecedence | Expression.java:33-72 | The precedence each node constructor assigns agrees with the operator table and lies in 1..4. |
| Expressions.EvalExpr | Expression.java:122-142 | An operator node always evaluates to 0 or 1. When every variable holds a bit, every tree does. XOR adds its operands as Java `int`s. |
| Expressions.XorSumWrapsAround | Expression.java:134-136 | With A = `MIN_VALUE` and B = `MIN_VALUE + 1`, the wrapped sum is 1, so `A ⊕ B` evaluates to 1. |
| Expressions.EvalAgreesWithTruth | Expression.java:122-142 | When every variable holds a bit, `evalExpr` is 1 exactly when the tree's boolean formula is true. |
| Expressions.EvalUsesOperatorTable | Expression.java:129-140 | When every variable holds 0 or 1, each operator node evaluates exactly as the operator table's `eval` for its operator, applied to its operands' values. |
| Expressions.OffBitOperandsDisagree | Expression.java:129-140 | Off bits the two disagree: `evalExpr` tests each operand for `== 1` while AND's table rule tests `a + b == 2`, so with A = 2 and B = 0 `A * B` evaluates to 0 although AND's rule gives 1. |
| Expressions.ContainsVariableIffLeaf | Expression.java:145-161 | `containsVariable(x, e)` holds exactly when `x` names one of the tree's leaves. |
| Expressions.EvalDependsOnlyOnContainedVariables | Expression.java:122-161 | Two environments that agree on every contained variable give the same value. |
| Expressions.NumOfVariablesCountsLeaves | Expression.java:298-314 | `numOfVariables` counts leaf occurrences, so a repeated name counts each time. It is at least the number of distinct names. |
| Expressions.NumOfVariablesIn | Expression.java:317-323 | The list count is at most the list length. It equals the length exactly when every entry is a variable, and is 0 exactly when none is; in particular a one-entry list counts 1 for a variable and 0 for any other node. With `Expressions.NumOfVariablesInAppend` this fixes the count of every list as its number of variable entries. |
| Expressions.NumOfVariablesInAppend | Expression.java:317-323 | The count of a concatenation is the sum of the parts' counts, for all lists, so the count is the number of variable entries wherever they stand. |
| Expressions.MixedListCount | Expression.java:317-323 | A list mixing variables and operator nodes, `[A, !A, B, A * B]`, counts 2. |
| Expressions.NumOfVariablesInPrefix | Expression.java:317-323 | A list of variables followed by compound nodes counts exactly its variables. |
| Tokenizer.TrimStart | Expression.java:276 | Java's `trim` at the front removes only characters up to U+0020, and leaves a string that starts with a character it cannot remove. |
| Tokenizer.TrimEnd | Expression.java:276 | The same at the back. |
| Tokenizer.RemoveSpaces | Expression.java:276 | `replaceAll(" ", "")` leaves no space, is no longer than its input, keeps only characters of the input, and returns a space-free input unchanged. Together with `Tokenizer.RemoveSpacesAppend` (deleting spaces distributes over concatenation), every other character is kept in order. |
| Tokenizer.RemoveSpacesAppend | Expression.java:276 | Deleting the spaces of a concatenation is deleting them from each part. |
| Tokenizer.TrimKeepsDelimiters | Expression.java:276 | Trimming keeps every operator and parenthesis character, in order. |
| Tokenizer.RemoveSpacesKeepsDelimiters | Expression.java:276 | Deleting spaces keeps every operator and parenthesis character, in order. |
| Tokenizer.TrimIsSpaceRemoval | Expression.java:276 | With plain spacing, trimming removes only spaces that the space deletion removes anyway. |
| Tokenizer.ScanShape | Expression.java:278-292 | The scan loop emits only one-character symbol tokens and non-blank, delimiter-free names. A name is always followed by a symbol. A space-free input gives space-free tokens. |
| Tokenizer.ScanDelimiters | Expression.java:278-292 | The scan loop keeps every delimiter of its input, in order. |
| Tokenizer.ScanJoins | Expression.java:278-292 | Without whitespace, the scan loop loses nothing: its tokens joined end to end are the pending name followed by the rest of the input. |
| Tokenizer.Tokenize | Expression.java:273-295 | Every token is one delimiter character or a non-blank name without delimiters or spaces. No blank token is ever emitted. Two names never touch. The delimiters of the input come back in order. |
| Tokenizer.TokensJoinToInput | Expression.java:273-295 | With plain spacing, joining the tokens gives the input with its spaces removed. |
| Parser.LayExtra | Expression.java:172-179 | The running parenthesis bonus is 5 times the current nesting depth. |
| Parser.LaySlotCount | Expression.java:173-212 | The working list has one entry per non-parenthesis token. |
| Parser.SlotOfToken | Expression.java:173-212 | The entry for token k sits at the number of non-parenthesis tokens before k. An operator's entry is an empty node with base precedence plus 5 times the depth there. A name's entry is its variable leaf. |
| Parser.LayVariableSet | Expression.java:170-210 | The variable map records each name once, and records exactly the names that occur among the tokens. |
| Parser.LayVariableOrder | Expression.java:200-210 | Recorded variables are kept in order of first appearance. |
| Parser.LayLeaves | Expression.java:200-210 | Every leaf in the working list is the node of a recorded variable, so a reused name shares its variable. |
| Parser.LayYield | Expression.java:173-212 | The laid-out list reads back as the tokens without their parentheses, and every leaf has a name as the tokenizer makes them. |
| Parser.LayCounts | Expression.java:180-211 | The list has one empty operator per operator token and one leaf per name token. |
| Parser.LayWithoutParens | Expression.java:172-199 | Without parentheses every operator keeps its base precedence and the bonus stays 0. |
| Parser.SelectFrom | Expression.java:226-237 | The scan from position i keeps the leftmost empty operator of strictly highest precedence seen so far. |
| Parser.SelectOperator | Expression.java:221-237 | The result is the leftmost empty operator of strictly highest positive precedence. It is -1 exactly when no empty operator has positive precedence. Variables, at 0, are never chosen. |
| Parser.Step | Expression.java:239-254 | A NOT takes its right neighbour. A binary operator takes its right neighbour as `lTerm` and its left one as `rTerm`. The node keeps the operator's effective precedence. The list shrinks by the arity, everything else keeps its place, and the token reading of the list is unchanged. No remaining empty operator outranks the new node. |
| Parser.StepFacts | Expression.java:239-254 | One join keeps the token reading. It removes exactly one empty operator, and arity - 1 filled entries, each of which may be a finished subtree. |
| Parser.StepBound | Expression.java:226-254 | After a join, no remaining empty operator has a higher precedence than the joined node. |
| Parser.StepMembers | Expression.java:239-254 | After a join, every entry was already in the list or is the new node, whose operands came from the list. |
| Parser.EqualPrecedenceGroupsLeft | Expression.java:226-254 | Equal precedences group to the left, for every input. Suppose the entry just right of a newly joined node is a binary operator of the same precedence whose right neighbour is filled. Then that operator is selected next, and the new node becomes its left operand (`rTerm`). |
| Parser.Reduce | Expression.java:219-258 | The reduction loop ends with at most one entry. It keeps the token reading and builds one node per empty operator. Once anything is joined, the last node is the entry left; with at least one filled entry, exactly one filled entry remains. Node precedences never increase and start from the highest precedence in the list. |
| Parser.ReduceKeepsGoodNames | Expression.java:219-258 | Joining never invents a name. |
| Parser.ReduceKeepsBelow | Expression.java:219-258 | Every node takes its precedence from an operator of the list, so a common bound survives the loop. |
| Parser.ParseTokens | Expression.java:164-260 | The breakdown starts with one variable node per recorded variable, in order. Every later entry is an operator node, and their precedences never increase. |
| Parser.ParseToExpr | Expression.java:164-260 | For a string: the variable nodes come first, then only operator nodes. |
| Parser.BreakdownVariables | Expression.java:164-260 | The breakdown's variables are distinct and are exactly the names among the tokens, in order of first appearance. The list count of variables equals their number. |
| Parser.ParsedTree | Expression.java:164-260 | With at least one name, the last breakdown entry is the whole tree: the single entry the loop leaves. It reads back the tokens without their parentheses, and its leaves are the name tokens in order. The breakdown has one entry per variable plus one per operator token. |
| Parser.ParsedTreeVariables | Expression.java:145-260 | `containsVariable` on the parsed tree holds exactly for the recorded variables. `numOfVariables` of the tree equals the number of name tokens. |
| Parser.ParenFreeTree | Expression.java:172-237 | Without parentheses no node of the parsed tree has a precedence above NOT's 4. |
| Printer.PrintedTokensInSourceOrder | Expression.java:331-364 | With parentheses and spaces deleted, the printed form is the tree's tokens in source order. Printing `rTerm` before `lTerm` undoes the parser's swapped storage. |
| Printer.BodyTokensInSourceOrder | Expression.java:343-357 | The same for a node printed without its own parentheses. |
| Printer.PrintedBalanced | Expression.java:331-364 | The printed form is always properly parenthesised. |
| Printer.WrappedIffAboveCheck | Expression.java:338-361 | A node prints as one parenthesised group exactly when its precedence exceeds the check it is printed against. |
| Printer.FlatTreePrintsWithoutParens | Expression.java:331-364 | A tree whose precedences all stay within the check prints without any parenthesis. |
| Printer.FlatTreePrintsItsTokens | Expression.java:331-364 | Such a tree, with its spaces deleted, prints as its tokens joined in source order. |
| RoundTrip.PrintedParseMatchesInput | Expression.java:164-364 | For a well-formed, plainly spaced input with at least one name, printing the parsed tree gives back the input, up to spaces and parentheses. |
| RoundTrip.ParenFreeRoundTrip | Expression.java:164-364 | For such an input without parentheses, the printed tree is the input up to spaces. |
| Scenarios.LeftGrouping | Expression.java:219-258 | `A+B+C` gives the breakdown A, B, C, A+B, (A+B)+C, so equal operators group left to right. |
| Scenarios.Grouping | Expression.java:172-258 | In `(A+B)*C` the OR gets 1 + 5 = 6 and is joined first, then becomes the AND's left operand. |
| Scenarios.GroupPrints | Expression.java:326-364 | That tree prints as `(A + B) * C`. |
| Scenarios.DoubleNotIsRejected | Expression.java:226-241 | `!!A` is outside what the parser handles: the first NOT is selected while its right neighbour is still an empty NOT. |
| Scenarios.XorTable | TruthTable.java:64-103 | The data rows of the `A⊕B` table are 000, 011, 101 and 110. |
| Bits.RowBitsRoundTrip | TruthTable.java:68-82 | Reading back the n binary digits of any row number below 2^n gives the number. |
| Bits.FromBitsRoundTrip | TruthTable.java:68-82 | Every 0/1 sequence of length n is the digit sequence of exactly one number below 2^n. |
| Bits.EveryAssignmentOnce | TruthTable.java:68-82 | Each assignment is the digit sequence of some row below 2^n, and no two rows have the same digits. |
| Bits.SlowestAndFastest | TruthTable.java:68-82 | The first variable is 0 in the first half of the rows and 1 in the second. The last variable is the row number mod 2. |
| TruthTables.BitString | TruthTable.java:77-79 | A bit is written as "0" or "1", and as "1" exactly for 1. |
| TruthTables.ParseBit | TruthTable.java:94 | `Integer.parseInt` on a written cell gives a bit, and 1 exactly for "1". |
| TruthTables.BitStringRoundTrip | TruthTable.java:77-100 | Writing a bit and parsing it back are inverse to each other. |
| TruthTables.RowEnv | TruthTable.java:92-95 | Row i's assignment gives variable k binary digit k of i, and gives bits only. |
| TruthTables.NewTruthTable | TruthTable.java:42-51 | The grid has 2^n + 1 rows and one column per breakdown entry. Row 0 is the header. The variable cells count in binary and the other cells hold the entries' values. Every data cell is "0" or "1". |
| TruthTables.BuildTable | TruthTable.java:64-86 | Row 0 holds `toString()` of every entry in breakdown order. Variable column k of data row r holds binary digit k of r - 1. Every later column holds its entry's value under that row's assignment. |
| TruthTables.FillColumn | TruthTable.java:73-81 | One pass of the outer fill loop writes digit k of every row into column k and changes nothing else. It leaves the never-reset counter at 2^(k+2) - 1, ready for the next column. |
| TruthTables.ColumnValues | TruthTable.java:74-80 | The inner loop produces digit k of rows 0 .. 2^n - 1, in order. |
| TruthTables.NextCell | TruthTable.java:75-79 | At a block start the counter goes up and the setter takes its parity. The value written is digit k of the row. |
| TruthTables.BlocksStartedCount | TruthTable.java:75 | Over rows 0..i the block test `i % zeroIntervall == 0` succeeds i / zeroIntervall + 1 times. |
| TruthTables.CounterValue | TruthTable.java:68-81 | The counter's parity when row i is written is digit k of i. The counter enters column k odd, at 2^(k+1) - 1. |
| TruthTables.CounterAtEnd | TruthTable.java:70-81 | After a column of 2^n rows the counter has gone up 2^(k+1) times. |
| TruthTables.WriteColumn | TruthTable.java:79 | Writing a column changes only that column of the data rows. |
| TruthTables.EvaluateExpressions | TruthTable.java:89-103 | Row 0 and the variable columns are never overwritten. Column j ≥ n of every data row holds the value of entry j under that row's assignment. |
| TruthTables.EvaluateRow | TruthTable.java:98-101 | Within a row, every entry after the variables is evaluated and written, and the variable cells stay. |
| TruthTables.ReadAssignment | TruthTable.java:93-95 | Reading a row's variable cells gives exactly that row's assignment. |
| TruthTables.RowsEnumerateAssignments | TruthTable.java:68-82 | The variable columns of the data rows list every 0/1 assignment, and two different data rows differ in some variable column. |
| TruthTables.ValueColumnsAreTruthValues | TruthTable.java:89-103 | A value cell reads "1" exactly when its formula is true under the row's assignment. |
| TruthTables.ParsedBreakdownFitsTable | TruthTable.java:44-47 | The parser's breakdown is a valid table input: its variables come first and have distinct names, and the list count of variables is exactly their number. |

## Left out

- UI.java (window, buttons, cell rendering), `TruthTable.printTable` and the debug printing in `parseToExpr`: presentation and console I/O.
- Malformed input. Expression.java does no validation, and the model asks for `Parser.WellFormed`: every join finds a filled neighbour on each side it takes. Outside that, the source fails in several ways. Suppose more than one entry is left but no empty operator of positive precedence remains, as with adjacent operands such as `A(B)`, or `!!A`, where the first NOT takes the second, still-empty NOT as its operand. Then line 240 dereferences null. A binary operator at the left end, as in `*A`, removes index -1 and throws. A binary operator at the right end, as in `A*+`, takes an unfilled operator as its operand: the parse completes. Printing then gives `A *  + `, because `exprToString` prints a missing operand as the empty string (line 336). The null dereference comes only in `evalExpr` (line 124). An unmatched opening parenthesis only raises precedences, and the input parses; the model accepts it the same way. An unmatched closing one can push an operator's precedence to 0 or below. Such an operator is never selected, and line 240 dereferences null. `Scenarios.DoubleNotIsRejected` shows that `!!A` is outside `WellFormed`. Empty input is inside it and gives an empty breakdown, as in the source.
- Syntax errors: Expression.java reduces a single working list and reports no syntax errors; the model follows the code and has no error result.
- TruthTable.java calls `parseToExpression`, `getSubExpressions`, `getVariables`, `setCurrentValue` and `evaluateExpression`, which Expression.java does not define. The table is therefore modelled over an abstract input: a breakdown whose first n entries are distinct variables, evaluated with `evalExpr` under an environment. `TruthTables.ParsedBreakdownFitsTable` shows that the parser's breakdown meets this requirement.
- `Math.pow` works on doubles. The model uses the integer 2^n and requires n ≤ 30, beyond which 2^n + 1 does not fit Java's `int`.
- Mutable `currentValue` fields and node identity: the model has one environment slot per name, so "one shared node per variable" becomes "one entry per distinct name".
- Java strings are UTF-16. The model works on Unicode scalar values. All symbols, including ⊕, are single characters in both.
- TruthTables.FillColumn computes the column's values and then writes them, whereas the source writes each cell as it goes. The final grid is the same.
- Tokenizer.TokensJoinToInput: besides "no whitespace other than spaces", this also requires no control characters below U+0020. `trim` removes those at the ends, so the join would not give them back.
- RoundTrip.PrintedParseMatchesInput: this holds up to parentheses only. The printer adds parentheses from stored precedences, which need not match the input's.
- Expressions.EvalUsesOperatorTable: holds only when every variable holds 0 or 1. Off bits, `evalExpr` and the operator table's rules disagree (`Expressions.OffBitOperandsDisagree`). The truth table only ever stores 0 or 1, so the difference never shows there.
- Variable values are unbounded integers in the model. Java's `currentValue` is an `int`, so values outside the 32-bit range cannot occur there. The model applies the same wrap-around (`Operators.AddInt32`) to any value.
