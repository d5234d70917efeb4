# A verified model of the ICFP 2024 interpreter core

This project models, in Dafny, the core of a Rust solution to the ICFP
Programming Contest 2024. The language of that contest is written as
whitespace-separated tokens. An indicator character tells what each token is:
`T`/`F` booleans, `I` integers, `S` strings, `U`/`B` unary and binary operators,
`?` conditionals, `L` lambdas and `v` variables. Integers and identifiers are
written in base 94. Strings are written as codes 33..126 that index a fixed
94-symbol alphabet.

The model covers the following parts of the source:

- **Codec** (`codec.dfy`, from `src/lib.rs`): base-94 integers and the alphabet
  codec. It includes the reverse table built by a loop. Each loop of the
  source is a method proved equal to a specification function. The functions
  are related by round-trip and canonical-form lemmas.
- **Lexer** (`lexer.dfy`): split the text on whitespace runs, parse each piece
  by its indicator, and tokenize. It proves that splitting loses only
  whitespace. It also proves that the text of well-formed tokens, written apart
  by any non-empty runs of whitespace, lexes back to the same tokens.
- **Ast** (`ast.dfy`): the expression tree and the prefix-order builder
  `create_ast`, with `parse_into_ast`. The builder reads back exactly the
  prefix serialization of any tree, whatever follows it. It fails only when
  no complete tree starts at the index.
- **Evaluator** (`eval.dfy`): substitution (`apply`) and one call of `eval`,
  with its operators. It proves facts about free identifiers, such as that
  evaluation never introduces any. Other lemmas cover truncating division,
  the string round trips and the operator examples of the source.
- **Sudoku** (`sudoku.dfy`, from `src/sudoku.rs`): the in-place backtracking
  solver over a 9 x 9 `array2`, and `is_ok`. It also models the extraction of
  clues from an expression tree into a grid.
- **Rewrite** (`rewrite.dfy`, from `src/bin/eff.rs`): the `x + x` to `x * 2`
  rewrite and its iteration.

Every panic of the source, other than fixed-width overflow and a
`RefCell` borrow conflict (see "Left out"), becomes an `Err` value of
`Outcome.Result` (`outcome.dfy`). This covers a failed `unwrap`, an index
out of bounds, a `u8` subtraction that underflows and an unknown operator.
The model follows a build with overflow checks on, as Cargo's dev profile
(`cargo run`, `cargo test`) has: there `c as u8 - 33` panics for a byte
below 33, where a release build would wrap it to a digit from 223 to 255.
Integers are unbounded.

Two consequences of the code are worth stating, because a reader of the wire
format might expect otherwise:
- `encode_string` unwraps a lookup in the reverse table. So `{` and `}`, the
  two printable ASCII characters missing from the 94-symbol alphabet, fail to
  encode (`Codec.Encoded`, `Codec.EncodedStops`).
- `split_string` splits on the regular expression `\s+`. Leading or trailing
  whitespace gives an empty piece, and `parse_token` fails on it
  (`Lexer.SplitString`, `Lexer.ParseAllStops`).

## Model

| member | source | states |
|---|---|---|
| Codec.DecodeBase94 | src/lib.rs:272-282 | a digit string decodes to a non-negative value; it fails iff some character's byte is below 33 (the `u8` subtraction underflows) |
| Codec.Base94StringToInt | src/lib.rs:272-282 | the multiply-and-add loop computes `DecodeBase94`, including the error at the first bad digit |
| Codec.DecodeBase94Stops | src/lib.rs:272-282 | once a prefix fails to decode, every extension fails with the same error |
| Codec.Base94Digits | src/lib.rs:283-292 | every digit is printable; the digit string is empty iff the number is zero or negative |
| Codec.IntToBase94String | src/lib.rs:283-292 | the push-then-reverse loop computes `Base94Digits` |
| Codec.Base94RoundTrip | src/lib.rs:272-292 | decoding the digits of any n >= 0 gives n back; 0 is the empty string |
| Codec.Base94NoLeadingZero | src/lib.rs:283-292 | the digits of a positive number never start with digit zero `!` |
| Codec.Base94Canonical | src/lib.rs:272-292 | a printable digit string without a leading `!` decodes, and is the encoding of its value (the encoding is the unique canonical one) |
| Codec.AlphabetEntry | src/lib.rs:294-296 | entry k of the 94-symbol table is the closed-form range formula `TableEntry(k)` |
| Codec.AlphabetDistinct | src/lib.rs:294-296 | the table's 94 symbols are pairwise distinct |
| Codec.AlphabetIndexFinds | src/lib.rs:294-304 | the reverse lookup finds exactly the table's symbols, each at its own index |
| Codec.BuildReverseTable | src/lib.rs:298-304 | the insert loop builds a map holding every symbol at its index, with exactly the symbols of the table as keys |
| Codec.Decoded | src/lib.rs:306-317 | decoding keeps the length; each output symbol is the table entry of its code; it fails iff some code is outside 33..126 |
| Codec.DecodeString | src/lib.rs:306-317 | the push loop computes `Decoded`, failing at the first bad code |
| Codec.DecodedStops | src/lib.rs:306-317 | once a prefix fails to decode, every extension fails with the same error |
| Codec.Encoded | src/lib.rs:319-327 | encoding keeps the length; each code is 33 plus the symbol's index; it fails iff some symbol is not in the table |
| Codec.EncodeString | src/lib.rs:319-327 | the loop over the reverse table computes `Encoded` |
| Codec.EncodedStops | src/lib.rs:319-327 | once a prefix fails to encode, every extension fails with the same error |
| Codec.CodeOfEntry | src/lib.rs:294-327 | the code of entry k is 33 + k, and it decodes back to entry k |
| Codec.EncodeThenDecode | src/lib.rs:306-327 | a string over the table encodes to printable codes that decode back to it |
| Codec.DecodeThenEncode | src/lib.rs:306-327 | printable codes decode to table symbols that encode back to the same codes |
| Lexer.FirstWhitespace | src/lib.rs:381-385 | the index of the first whitespace character, or the length when there is none |
| Lexer.RunEnd | src/lib.rs:381-385 | the end of the maximal whitespace run at i |
| Lexer.SplitString | src/lib.rs:381-385 | splitting on whitespace runs always yields at least one piece |
| Lexer.SplitDropsOnlyWhitespace | src/lib.rs:381-385 | the pieces, concatenated, are the text with its whitespace removed |
| Lexer.SplitOfTrimmedText | src/lib.rs:381-385 | text that neither starts nor ends with whitespace splits into non-empty pieces only |
| Lexer.SplitPiecesClean | src/lib.rs:381-385 | every piece of a split is free of whitespace |
| Lexer.SplitJoinWith | src/lib.rs:381-385 | joining non-empty, whitespace-free pieces with any non-empty runs of whitespace and splitting the result gives the pieces back |
| Lexer.ParseTokenText | src/lib.rs:329-369 | the text of every well-formed token is a non-empty, whitespace-free piece that `parse_token` reads back as that token |
| Lexer.ParseTokenExamples | src/lib.rs:489-500 | `I/6` parses to 1337, and `SB%,,/}Q/2,$_` to "Hello World!" |
| Lexer.ParseAll | src/lib.rs:371-379 | the tokens correspond one-to-one to the pieces, in order; parsing fails iff some piece does not parse |
| Lexer.ParseAllStops | src/lib.rs:371-379 | once a prefix of pieces fails, every extension fails with the same error |
| Lexer.Tokenize | src/lib.rs:371-379 | the push loop computes `Lex`, the parse of the split pieces, and stops at the first bad piece |
| Lexer.LexTokenTexts | src/lib.rs:329-385 | lexing the texts of well-formed tokens, written apart by any non-empty runs of whitespace, gives the tokens back |
| Lexer.ParseToken | src/lib.rs:329-369 | dispatches on the indicator character; an empty piece, a `U` or `B` without an operator, a bad digit or code, and an unknown indicator are errors; its round trip with the token text is `Lexer.ParseTokenText` |
| Lexer.Lex | src/lib.rs:371-385 | the reference for `tokenize`: the parse of every piece of the split, in order; `Lexer.Tokenize` is proved equal to it, and `Lexer.LexTokenTexts` inverts it |
| Ast.Serialize | src/lib.rs:387-428 | the prefix token sequence of a tree is never empty |
| Ast.CreateAst | src/lib.rs:387-428 | a successful build ends past its start and within the stream; every failure is an out-of-bounds read at or beyond the end |
| Ast.CreateAstOfSerialized | src/lib.rs:387-428 | the builder reads back exactly the tree whose prefix tokens start at the index, and stops just past them, whatever surrounds them |
| Ast.CreateAstConsumesSerialized | src/lib.rs:387-428 | conversely, a successful build consumed exactly the prefix tokens of the tree it returns |
| Ast.CreateAstIgnoresTrailing | src/lib.rs:387-428 | tokens appended after the stream do not change a successful build |
| Ast.CreateAstFailsIffNoTree | src/lib.rs:387-428 | the builder fails iff no complete tree's tokens start at the index |
| Ast.ParseIntoAstOfText | src/lib.rs:430-435 | the text of a tree, followed by any well-formed tokens and written apart by any runs of whitespace, parses back to the tree; the trailing tokens are ignored |
| Ast.ParseIntoAst | src/lib.rs:430-435 | tokenize, then build the tree at the first token and drop the rest; `Ast.ParseIntoAstOfText` states its round trip |
| Ast.IsBasic | src/lib.rs:87-92 | booleans, integers and strings are the values; `Evaluator.EvalOfValue` states that they evaluate to themselves |
| Evaluator.UnwrapBool | src/lib.rs:57-62 | succeeds exactly on a boolean node, and returns its value |
| Evaluator.UnwrapInt | src/lib.rs:64-70 | succeeds exactly on an integer node, and returns its value |
| Evaluator.UnwrapString | src/lib.rs:72-77 | succeeds exactly on a string node, and returns its value |
| Evaluator.Apply | src/lib.rs:94-140 | substitution without renaming that stops at a lambda rebinding the identifier; its properties are `Evaluator.ApplyNotFree`, `Evaluator.ApplyIdentity`, `Evaluator.ApplyFreeVars`, `Evaluator.ApplyFreeVarsExact` and `Evaluator.ApplyCaptures` |
| Evaluator.ApplyNotFree | src/lib.rs:94-140 | substituting for an identifier that is not free leaves the tree unchanged |
| Evaluator.ApplyIdentity | src/lib.rs:94-140 | substituting a variable for itself leaves the tree unchanged |
| Evaluator.ApplyFreeVars | src/lib.rs:94-140 | after substitution, the free identifiers lie between those of the tree minus x, and those plus the identifiers of the value |
| Evaluator.ApplyFreeVarsExact | src/lib.rs:94-140 | when x occurs free and no binder captures the value's identifiers, the free identifiers are exactly those of the tree minus x, plus those of the value |
| Evaluator.ApplyCaptures | src/lib.rs:126-132 | without renaming, a substituted variable can be captured by an inner lambda |
| Evaluator.TruncDivMod | src/lib.rs:202-203 | `/` and `%` truncate toward zero: `a == b*q + r`, the remainder is smaller in magnitude than the divisor and carries the dividend's sign, and the quotient's magnitude is the quotient of the magnitudes |
| Evaluator.EvalUnary | src/lib.rs:149-173 | negation, logical not, string-to-integer and integer-to-string on an evaluated operand; a wrong operand kind or an unknown operator is an error; `Evaluator.IntToStringToInt` and `Evaluator.StringToIntToString` state its round trips |
| Evaluator.EvalBinary | src/lib.rs:197-240 | the operators on two values: integer arithmetic with truncating division, comparisons, equality of like kinds, short-circuit logic, and string concatenation, take and drop; `$` of two values is kept; its properties are `Evaluator.TruncDivMod`, `Evaluator.EvalDivision`, `Evaluator.EvalEquality` and `Evaluator.TakeThenDrop` |
| Evaluator.Eval | src/lib.rs:142-270 | one evaluation step, by the rules that `Evaluator.EvalOfValue`, `Evaluator.EvalApplication`, `Evaluator.EvalBinaryOfValues`, `Evaluator.EvalBinaryPartial`, `Evaluator.EvalBinaryLeftFails` and `Evaluator.EvalIf` state; `Evaluator.EvalFreeVars` and `Evaluator.EvalKeepsClosed` bound its free identifiers |
| Evaluator.EvalFreeVars | src/lib.rs:142-270 | evaluation never introduces free identifiers |
| Evaluator.EvalKeepsClosed | src/lib.rs:142-270 | a closed tree evaluates to a closed tree |
| Evaluator.EvalOfValue | src/lib.rs:143-146 | booleans, integers and strings evaluate to themselves |
| Evaluator.EvalApplication | src/lib.rs:176-188 | an application of a written lambda performs one substitution without evaluating the argument, so `B$ L! I" v&` gives 1 although the variable `v&` cannot be evaluated |
| Evaluator.EvalUnsupported | src/lib.rs:264-266 | every bare variable and every bare lambda is an `Unsupported` error |
| Evaluator.EvalBinaryPartial | src/lib.rs:189-243 | when an operand does not evaluate to a value, the node is rebuilt around the evaluated operands |
| Evaluator.EvalBinaryOfValues | src/lib.rs:189-240 | when both operands evaluate to values, the operator is applied to those values |
| Evaluator.EvalBinaryLeftFails | src/lib.rs:189-190 | a binary node fails with the error of its failing left operand |
| Evaluator.EvalIf | src/lib.rs:247-265 | a boolean condition selects one branch, and the other is never looked at; a non-boolean value is an error; a condition that is not a value rebuilds the node |
| Evaluator.EvalEquality | src/lib.rs:207-220 | `=` compares two values of the same kind, and any other pair is an error |
| Evaluator.EvalDivision | src/lib.rs:202-203 | integer `/` and `%` truncate toward zero, and a zero divisor is an error |
| Evaluator.TakeThenDrop | src/lib.rs:225-237 | taking and then dropping the same count splits a string in two; a count outside 0..len is an error |
| Evaluator.IntToStringToInt | src/lib.rs:156-168 | `U#` undoes `U$` on every non-negative integer |
| Evaluator.StringToIntToString | src/lib.rs:156-168 | `U$` undoes `U#` on every string over the table that does not start with `a`; a leading `a` is lost |
| Evaluator.ArithmeticExamples | src/lib.rs:574-611 | the addition, subtraction, multiplication and negation examples |
| Evaluator.DivisionExamples | src/lib.rs:574-611 | `-7 / 2` is -3 and `-7 % 2` is -1 |
| Evaluator.ComparisonExamples | src/lib.rs:574-611 | the `<`, `>` and `=` examples |
| Evaluator.LogicExamples | src/lib.rs:222-223 | the logical or and and examples, including the short-circuit that never inspects a right operand once the left one decides |
| Evaluator.StringExamples | src/lib.rs:574-611 | the concatenation, take and drop examples |
| Evaluator.IfExample | src/lib.rs:613-620 | `? B> I# I$ S9%3 S./` evaluates to "no" |
| Evaluator.ApplicationSteps | src/lib.rs:629-642 | the reduction sequence `B$ L" B+ v" v" B* I$ I#`: one step substitutes, and a second step gives 12 |
| Sudoku.IsOk | src/sudoku.rs:27-45 | true iff num occurs in neither the row, the column nor the 3 x 3 box of the cell |
| Sudoku.PlacementFillsOne | src/sudoku.rs:47-65 | filling an empty cell removes exactly one empty cell, which is the measure that ends the recursion |
| Sudoku.NoZerosFilled | src/sudoku.rs:47-65 | no empty cell is left iff the grid is full |
| Sudoku.PlacementKeepsConsistent | src/sudoku.rs:27-65 | an `is_ok` placement into an empty cell keeps a consistent grid consistent |
| Sudoku.SolveFromState | src/sudoku.rs:47-65 | givens are never changed and empty cells get at most 9; on success the grid is full, on failure it is as it was; a consistent grid stays consistent, so a success is a solved Sudoku |
| Sudoku.Clues | src/sudoku.rs:67-104 | collecting clues fails only with an unsupported-expression error |
| Sudoku.RecordAppend | src/sudoku.rs:67-104 | inserting two runs of clues is inserting their concatenation |
| Sudoku.RecordContents | src/sudoku.rs:67-104 | after the inserts, a key is present iff it was present or inserted; the last insert of a key wins, and untouched keys keep their values |
| Sudoku.VisitSudoku | src/sudoku.rs:67-104 | the recursive walk succeeds iff the clues can be collected, and then leaves the map after inserting them in visiting order; a boolean outside `=` is an error |
| Sudoku.ClueOverwrite | src/sudoku.rs:80-84 | a later clue for the same key overwrites an earlier one; values are truncated to a byte; key 12 lands in row 0, column 1 |
| Sudoku.ClueCornerCases | src/sudoku.rs:67-104 | an `=` node is not looked into; a boolean elsewhere is an error; a negative identifier wraps to a key that names no cell |
| Sudoku.CellOfKey | src/sudoku.rs:110-114 | a valid key's row and column lie in the grid, and they give the key back |
| Sudoku.KeyOfCell | src/sudoku.rs:110-114 | the key of every cell is valid, and it names that cell |
| Sudoku.LayoutPlacesClues | src/sudoku.rs:106-118 | every placeable clue lands in its cell, and every other cell is empty |
| Sudoku.ExtractInitialState | src/sudoku.rs:106-118 | the result is a fresh 9 x 9 grid laid out from the collected clues; it is an error iff clue collection fails or some key names no cell, and the error reports that key |
| Rewrite.RewriteExpr | src/bin/eff.rs:5-28 | one pass keeps the free identifiers and the binders, and never grows the tree |
| Rewrite.RewriteTimes | src/bin/eff.rs:30-35 | the reference for `rewrite_expr_times`: the pass applied n times; `Rewrite.RewriteTimesInvariant`, `Rewrite.RewriteTimesFixpoint` and `Rewrite.RewriteTimesAdd` state its properties |
| Rewrite.RewriteExprTimes | src/bin/eff.rs:30-35 | the loop computes `times` passes, and keeps the free identifiers and the size bound |
| Rewrite.RewriteTimesInvariant | src/bin/eff.rs:30-35 | any number of passes keeps the free identifiers and the binders, and never grows the tree |
| Rewrite.RewriteTimesFixpoint | src/bin/eff.rs:30-35 | once a pass changes nothing, further passes change nothing |
| Rewrite.RewriteTimesAdd | src/bin/eff.rs:30-35 | m passes after n passes are n + m passes |
| Rewrite.DoublingKeepsValue | src/bin/eff.rs:59 | `a * 2` evaluates like `a + a` whenever `a` fails or evaluates to a value, and gives `2n` for an integer n |
| Rewrite.DoublingOfStuckOperand | src/bin/eff.rs:5-28 | when `a` evaluates to a tree that is not a value, the two forms rebuild different operators |
| Rewrite.UnequalSumKept | src/bin/eff.rs:7-13 | a `+` with unequal operands is kept whole, even when an operand could itself be doubled |
| Rewrite.ScenarioTree | src/bin/eff.rs:40-52 | the token stream of the source's test builds `\x0 -> (x0 + x0) + (x0 + x0)` |
| Rewrite.ScenarioRewrite | src/bin/eff.rs:52-53 | two passes give `\x0 -> (x0 * 2) * 2`, and a third pass leaves that alone |

## Left out

- Fixed-width integers: the source's `i64` arithmetic can overflow, and the model's integers are unbounded. The affected operations are base-94 decoding, `+`, `-`, `*`, `/`, `%` and negation; for instance `i64::MIN / -1` and `i64::MIN % -1` panic in the source, while the model gives `2^63` and `0`. `usize` and `u8` casts are modelled where they matter: a character's byte (`% 256`) and the Sudoku keys and values (`% 2^64`, `% 256`).
- Shared pointers: `Rc<RefCell<Expr>>` sharing and aliasing are not modelled, and trees are immutable values. The source never changes a node through a pointer, but `apply` takes a `borrow_mut` of every node it visits (src/lib.rs:97), and `eval` keeps its node borrowed while it works (src/lib.rs:143, and the condition at src/lib.rs:250 while a branch is evaluated).
- `RefCell` borrow panics: when a step has left one node shared between two places, `apply` can ask for a node that an enclosing `eval` still borrows, and the source panics with "already borrowed". For instance `B$ L" ? v" B$ L# v" I! F T` steps to `? T (B$ L# T I!) F` with one shared `T`, and the next `eval` panics, while `Evaluator.Eval` gives `T`. A freshly parsed tree shares no node, so this needs a tree built by an earlier step.
- Output: printing (`print_ast`, `print_grid`, `short_str` and the trace lines) is not modelled.
- The network and the interactive loop (`run_repl`, `run_repl_loop`, `src/main.rs`, `src/bin/repl.rs`) are not modelled.
- The test drivers and the callers' loops that re-apply `eval` a number of times are not modelled. The drivers include `test_lambda_operator2`, `test_lambda_operator3` and `test_language_test`, which read a file. Single evaluation steps of their examples are proved instead.
- `solve_eff*` in `src/bin/eff.rs` reads files and is not modelled. Only the rewrite it applies is.
- `solve_empty_sudoku`: the model does not prove that the search succeeds from the empty grid, since that needs an exhaustive search argument. `Sudoku.SolveFromState` states soundness and the failure behaviour only.
- `Lexer.SplitString`: the regular expression `\s+` is replaced by an explicit split on maximal runs of Unicode White_Space characters, with the same empty leading and trailing pieces.
- `Lexer.ParseToken`: the panics of the source become errors. An empty piece (`chars[0]`) is `EmptyToken`, a `U` or `B` without an operator character is `MissingOperator`, and an unknown indicator is `UnknownIndicator`.
- `Sudoku.IsOk`: it requires a 9 x 9 grid and an in-range row and column, where the source would panic on an out-of-range index.
- `Sudoku.ExtractInitialState`: an out-of-range key is reported as `InvalidCell` in place of the source's `usize` underflow or index panic. On such an error no grid is returned. The source's `HashMap` iteration order is left arbitrary.
- `Rewrite.DoublingKeepsValue`: the rewrite is shown to keep values only locally, for one doubled node whose operand fails or evaluates to a value. It does not keep the result of a single `eval` call when the operand is stuck, as `Rewrite.DoublingOfStuckOperand` shows.
- `Evaluator.Eval`: a bare lambda or variable is an `Unsupported` error, as the source's final `panic` is. Type mismatches in operators are `TypeMismatch`, and a slice count outside the string is `SliceOutOfRange`.
