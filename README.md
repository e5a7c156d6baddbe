# A verified model of `bigint` and the CSV line parser

This project models two pieces of a C++ course solution bundle in Dafny, and proves properties of the model.

- **`bigint`** (`oop/bigint.c++`) is a sign-magnitude decimal integer. It keeps a `bool sign` and the digit string exactly as parsed, and never strips leading zeros. Modelled:
  - constructor validation;
  - the structural `==` and the representation ordering `>` with the operators derived from it;
  - the sign mutators;
  - the column loops behind `+`, `-` and `*`;
  - the sign-case dispatch in which `+` and `-` call each other;
  - the compound assignments, `++`/`--` and unary `-`.
- **`CSV`** (`oop/csv.c++`) is a line-oriented CSV reader. Modelled:
  - its constructor;
  - `CSV::parse`: split on newlines, skip empty lines, scan each line with an `in_group` flag;
  - the text that `export_file` writes.

The model follows the code as written, not the arithmetic it aims at. The functions `Plus`, `Minus` and `Times`, and the column functions beneath them, compute exactly what the C++ computes, quirks included:
- **Addition.** The carry is added after `% 10`, so 199 + 1 = 1100.
- **Subtraction.** A column difference of −10 prints "10", so 100 − 99 = 0101.
- **Multiplication.** The carry out of each partial-product row is dropped, so 5 * 5 = 5.
- **Minus.** 0 − x = x, and −3 − 5 = 8.
- **Ordering.** `>` on two negatives compares magnitudes as if the values were positive.

Lemmas prove both sides:
- `+` and `++` are numerically right whenever the one column loop that their sign case reaches loses nothing. The carry loop needs nothing more. The borrow loop needs operands without leading zeros.
- `-` and `--` are numerically right under the same condition, except for a zero minuend and a negative minus a positive.
- `*` is related to the numeric product only for a one-digit multiplier. For every multiplier, it is proved commutative, with 1 as its unit.
- For each quirk, a concrete input shows where the results are wrong.

Modules:
- `Outcomes` (outcomes.dfy): the exceptions the code throws, as an `Error` datatype with `Result`/`Outcome` wrappers.
- `Digits` (digits.dfy): digit strings and their numeric reading `Nat`; `std::to_string` of an integer.
- `BigInts` (bigint.dfy): the `BigInt` value; parsing, printing, equality, ordering and negation.
- `Columns` (columns.dfy): the three digit loops. Each is a function over the columns, an imperative method proved equal to it, and lemmas relating it to `Nat`.
- `Arithmetic` (arithmetic.dfy): the sign-case dispatch of `+` and `-`, which terminates by the number of negative operands and then a pending swap; multiplication.
- `MutableBigInts` (mutable.dfy): the `bigint` object as a class whose methods overwrite `sign` and `numericString`.
- `CsvTables` (csv.dfy): the parser's state machine, `CSV::parse` as nested loops, the export layout and the round trip.

Helpers that the header declares are taken as follows:
- `is_unary_operator(c)` holds for `'+'` and `'-'`;
- `to_int(c)` is `c - '0'`;
- `isdigit` accepts ASCII `'0'`..`'9'`;
- `split_string(text, "\n")` returns the pieces between newlines, including empty ones.

Each `throw` becomes an `Err`/`Fail` value. The header and `split_string` are not part of this model.

## Model

| member | source | states |
|---|---|---|
| BigInts.Zero | oop/bigint.c++:4-6 | `bigint()` and `bigint(0)`, the positive "0": a constant; PlusZero, TimesZero and ZeroMinusIsIdentity state how the operators treat it |
| BigInts.One | oop/bigint.c++:157-171 | `bigint(1)`, the operand of `++` and `--`: a constant; StepNeverFails, TimesOne, IncrementIsSuccessor and DecrementIsPredecessor state how the operators treat it |
| BigInts.FirstIllegal | oop/bigint.c++:14-20 | the index of the first character the validation loop rejects: every earlier one is a digit or a sign at index 0 |
| BigInts.Parse | oop/bigint.c++:8-24 | succeeds iff the text is non-empty and every character is allowed; the empty text gives EmptyNumber, otherwise the first illegal character is reported; on success the sign is false exactly when the text starts with '-', and the text is the optional sign followed by the stored digits |
| BigInts.AcceptedDigits | oop/bigint.c++:14-23 | accepted text holds only digits after its first character, and only digits if it has no sign |
| BigInts.Construct | oop/bigint.c++:8-24 | the validation loop, run over the text, returns exactly what Parse specifies |
| BigInts.FromInt | oop/bigint.c++:26-28 | `bigint(int)` of any 32-bit integer succeeds with canonical digits and denotes that integer |
| BigInts.ToString | oop/bigint.c++:52-58 | the digits, preceded by '-' exactly when the sign is negative |
| BigInts.ToStringOfParse | oop/bigint.c++:22-58 | printing a parsed value gives back every accepted text that does not start with '+' |
| BigInts.ParseOfToString | oop/bigint.c++:8-58 | parsing a printed value gives the value back iff it has digits or is negative; an empty positive value prints as "" and is rejected |
| BigInts.ParseCornerCases | oop/bigint.c++:9-23 | "-0" is negative zero; a lone '+' or '-' is accepted with no digits; a leading space, a trailing newline, a non-digit after the sign and a sign after the first place are rejected with that character |
| BigInts.Equal | oop/bigint.c++:110-112 | `==` holds iff sign and digit string are both equal |
| BigInts.NotEqual | oop/bigint.c++:115-117 | `!=` holds iff the signs or the digit strings differ |
| BigInts.EqualityIsStructural | oop/bigint.c++:110-112 | "007" and "7" are unequal but denote the same number, and so are "-0" and "0" |
| BigInts.DigitsGreater | oop/bigint.c++:133-137 | the digit scan of `>`: no contract of its own; DigitsGreaterAsymmetric, DigitsGreaterTotal, DigitsGreaterTransitive and DigitsGreaterIsNumeric state what it means |
| BigInts.Greater | oop/bigint.c++:120-140 | `>`: no contract of its own; GreaterAsymmetric, GreaterTransitive, Trichotomy, GreaterIsNumeric, NegativeOrderNotInverted and LeadingZerosBreakOrder state what it means |
| BigInts.DigitsGreaterAsymmetric | oop/bigint.c++:133-137 | the digit scan never ranks two strings above each other |
| BigInts.DigitsGreaterTotal | oop/bigint.c++:133-137 | the digit scan ranks one of any two different strings of one length above the other |
| BigInts.DigitsGreaterTransitive | oop/bigint.c++:133-137 | the digit scan is transitive |
| BigInts.GreaterAsymmetric | oop/bigint.c++:120-140 | `>` is asymmetric |
| BigInts.GreaterTransitive | oop/bigint.c++:120-140 | `>` is transitive |
| BigInts.Trichotomy | oop/bigint.c++:120-145 | exactly one of a > b, a == b, b > a holds, and `>` is irreflexive |
| BigInts.Less | oop/bigint.c++:143-145 | `<` holds iff the other operand is greater |
| BigInts.GreaterOrEqual | oop/bigint.c++:148-150 | `>=` holds iff `>` or `==` |
| BigInts.LessOrEqual | oop/bigint.c++:153-155 | `<=` holds iff `<` or `==` |
| BigInts.DigitsGreaterIsNumeric | oop/bigint.c++:133-137 | on digit strings of one length the scan agrees with numeric order |
| BigInts.GreaterIsNumeric | oop/bigint.c++:120-140 | for non-negative values without leading zeros, `>` agrees with numeric order |
| BigInts.NegativeOrderNotInverted | oop/bigint.c++:125-136 | -999 > -1 although -999 is the smaller number |
| BigInts.LeadingZerosBreakOrder | oop/bigint.c++:129-131 | "007" > "9" although 7 < 9 |
| BigInts.Negate | oop/bigint.c++:319-321 | unary `-` keeps the digits and flips the sign |
| BigInts.NegateProperties | oop/bigint.c++:319-321 | negating twice gives the value back; negation denotes minus the value; `-0` is "-0", which is not `0` |
| BigInts.Abs | oop/bigint.c++:82-85 | `clone().make_positive()` keeps the digits and makes the sign positive |
| Columns.Pad | oop/bigint.c++:194 | left-padding with zeros to the longer length keeps the digits at the right and the numeric value |
| Columns.AddColumns | oop/bigint.c++:196-201 | the column loop of `+`: digits only, at least as long as the operands, carry 0 or 1, empty only for empty operands |
| Columns.AddColumnsSound | oop/bigint.c++:196-201 | when no column loses its carry, the printed columns plus the final carry times 10^n are the numeric sum |
| Columns.AddMagnitudes | oop/bigint.c++:192-206 | positive + positive: digits only, at least as long as the longer operand, empty only for an empty operand |
| Columns.AddMagnitudesSound | oop/bigint.c++:192-206 | when no column loses its carry, the result denotes the numeric sum |
| Columns.AddDigits | oop/bigint.c++:192-206 | the carry loop computes AddMagnitudes |
| Columns.AddFiveThree | oop/bigint.c++:192-206 | 5 + 3 gives "8" |
| Columns.AddColumnsOnes | oop/bigint.c++:196-201 | one column 9 + 1 prints "0" with carry 1 |
| Columns.AddColumnsTens | oop/bigint.c++:196-201 | "99" + "01" prints "100" with no carry: the second column's carry is printed as "10" |
| Columns.AddLosesCarry | oop/bigint.c++:199 | 199 + 1 gives "1100", not 200 |
| Columns.TruncRem10 | oop/bigint.c++:245 | C++ `%` by 10 truncates: non-negative for non-negative input, at most 0 for negative input |
| Columns.SubCell | oop/bigint.c++:245 | the printed column value: the remainder of a non-negative difference, the difference plus 10 for -9..-1, and 10 for -10 |
| Columns.SubColumns | oop/bigint.c++:241-252 | the borrow loop of `-`: digits only, at least as long as the operands, borrow 0 or 1 |
| Columns.SubColumnsSound | oop/bigint.c++:241-252 | when no column reaches -10, the printed columns are the numeric difference plus the final borrow times 10^n |
| Columns.SubtractMagnitudes | oop/bigint.c++:236-254 | positive - positive: digits only, at least as long as the first operand, empty only for an empty operand |
| Columns.SubtractMagnitudesSound | oop/bigint.c++:236-254 | when the first operand is at least the second and no column reaches -10, the result denotes the difference |
| Columns.SubColumnsStep | oop/bigint.c++:243-251 | one column: its printed value and the borrow passed on |
| Columns.SubColumnsOnes | oop/bigint.c++:243-251 | 0 - 9 prints "1" and borrows |
| Columns.SubColumnsTens | oop/bigint.c++:243-251 | "00" - "99" prints "101" and borrows: the second column, -10, prints "10" |
| Columns.SubColumnsHundreds | oop/bigint.c++:241-252 | "100" - "099" prints "0101" |
| Columns.SubtractionEmitsTen | oop/bigint.c++:245 | 100 - 99 gives "0101", not 1 |
| Columns.SubtractDigits | oop/bigint.c++:236-254 | the borrow loop computes SubtractMagnitudes |
| Columns.RowColumns | oop/bigint.c++:290-294 | the inner multiplication loop: as many digits as the multiplicand, carry below 10 |
| Columns.Row | oop/bigint.c++:287-294 | one partial product without its final carry: digits only, as long as the multiplicand |
| Columns.RowColumnsSound | oop/bigint.c++:290-294 | the printed row plus its carry times 10^n is the multiplicand times the digit |
| Columns.RowDropsCarry | oop/bigint.c++:290-294 | the row denotes the product modulo 10^n |
| Columns.RowDigits | oop/bigint.c++:287-294 | the inner loop computes Row |
| Columns.RowLosesCarry | oop/bigint.c++:290-294 | the row of 5 times 5 is "5" |
| Arithmetic.NegateResult | oop/bigint.c++:221 | unary `-` applied to a result: negates a value and passes an error through |
| Arithmetic.ParseOfDigits | oop/bigint.c++:8-24 | building a bigint from a digit string gives a positive value, and EmptyNumber for "" |
| Arithmetic.Plus | oop/bigint.c++:180-225 | `+` on all four sign cases: fails, with EmptyNumber, exactly when both operands have no digits; two positive operands give a positive result; the closing `logic_error` is unreachable |
| Arithmetic.Minus | oop/bigint.c++:228-271 | `-` on all four sign cases: fails, with EmptyNumber, exactly when both operands have no digits; the closing `logic_error` is unreachable |
| Arithmetic.PaddingNonNegative | oop/bigint.c++:189-194 | in positive + positive after the swap the padding length is never negative |
| Arithmetic.ParseOfAddition | oop/bigint.c++:206 | the sum string parses back to a positive value unless it is empty |
| Arithmetic.ParseOfSubtraction | oop/bigint.c++:254 | the difference string parses back to a positive value unless it is empty |
| Arithmetic.PlusZero | oop/bigint.c++:181-185 | x + 0 == x and 0 + x == x |
| Arithmetic.PositiveSum | oop/bigint.c++:188-206 | two positive operands, not both without digits, whose carry loop (larger operand first) loses no carry add to the numeric sum; leading zeros are allowed |
| Arithmetic.PositiveDifference | oop/bigint.c++:232-255 | two positive canonical operands, the first non-zero, whose borrow loop (larger operand first) has no column at -10, subtract to the numeric difference, swapped and negated when the first is smaller |
| Arithmetic.PlusDenotesSum | oop/bigint.c++:180-225 | `+` denotes the numeric sum in every sign case whenever the one loop that case reaches is exact: the carry loop when the signs agree, the borrow loop on canonical magnitudes when they differ (PlusExact) |
| Arithmetic.MinusDenotesDifference | oop/bigint.c++:228-271 | `-` denotes the numeric difference whenever the one loop its sign case reaches is exact (MinusExact), for a first operand other than "0" that is not negative against a positive one |
| Arithmetic.ExactSymmetric | oop/bigint.c++:189-190 | whether the carry loop or the borrow loop is exact does not depend on the operand order |
| Arithmetic.NinetyOneMinusNineExact | oop/bigint.c++:236-252 | 91 + -9 and 91 - 9 reach a borrow loop that is exact, though the carry loop on 91 and 9 would lose a carry |
| Arithmetic.OneNinetyNineMinusOneExact | oop/bigint.c++:236-252 | -199 + 1 and 199 - 1 reach a borrow loop that is exact, though the carry loop of 199 + 1 loses a carry |
| Arithmetic.PlusLosesCarry | oop/bigint.c++:199 | 199 + 1 == 1100 |
| Arithmetic.MinusEmitsTen | oop/bigint.c++:245 | 100 - 99 == 0101 |
| Arithmetic.ZeroMinusIsIdentity | oop/bigint.c++:229-230 | 0 - 5 == 5 |
| Arithmetic.NegativeMinusPositiveAdds | oop/bigint.c++:262-264 | -3 - 5 == 8 |
| Arithmetic.FivePlusThree | oop/bigint.c++:188-206 | 5 + 3 == 8 |
| Arithmetic.Element | oop/bigint.c++:286-296 | a partial product: a digit string as long as the multiplicand plus one trailing zero per multiplier digit to the right, denoting the row times 10 to the number of those digits |
| Arithmetic.AddRow | oop/bigint.c++:299 | `result += bigint(element)`: stays positive; fails exactly when the element is empty |
| Arithmetic.Accumulated | oop/bigint.c++:286-300 | the running total after the rows from j on: positive; fails only for an empty multiplicand |
| Arithmetic.Times | oop/bigint.c++:274-305 | `*`: fails, with EmptyNumber, exactly when neither operand is 0 and the operand taken as multiplicand after the swap has no digits while the other has some |
| Arithmetic.TimesZero | oop/bigint.c++:275-276 | x * 0 == 0 and 0 * x == 0, positive |
| Arithmetic.TimesSign | oop/bigint.c++:303 | a product of non-zero operands is positive iff the operand signs match |
| Arithmetic.MultiplyDigits | oop/bigint.c++:286-300 | the outer loop computes Accumulated |
| Arithmetic.AddPartialProduct | oop/bigint.c++:287-299 | one outer iteration adds the row for multiplier digit j |
| Arithmetic.TimesOneDigit | oop/bigint.c++:274-305 | with a one-digit multiplier the product denotes the numeric product iff it fits in the multiplicand's length |
| Arithmetic.TimesByRow | oop/bigint.c++:283-303 | with a one-digit multiplier the product is the single row, signed |
| Arithmetic.RowProduct | oop/bigint.c++:287-303 | the signed row denotes the product iff the product fits in the multiplicand's length |
| Arithmetic.RowMagnitude | oop/bigint.c++:290-294 | the row's digits denote the product iff it is below 10^n |
| Arithmetic.AccumulateOne | oop/bigint.c++:278-300 | 0 plus the only row is that row |
| Arithmetic.AddRowStep | oop/bigint.c++:299 | adding a non-empty row is `+` on two positive values |
| Arithmetic.TimesLosesCarry | oop/bigint.c++:290-294 | 5 * 5 == 5 |
| Arithmetic.TimesOne | oop/bigint.c++:274-305 | x * 1 == x for every operand with digits, whichever of the two `>` puts first |
| Arithmetic.AccumulatedByOne | oop/bigint.c++:286-300 | with "1" as the multiplicand, the outer loop rebuilds the multiplier's digits from index j on |
| Arithmetic.PlusPrependsDigit | oop/bigint.c++:299 | adding a digit followed by zeros to a shorter positive value puts the digit in front of it |
| Arithmetic.PlusCommutes | oop/bigint.c++:180-225 | a + w == w + a, results and errors alike |
| Arithmetic.TimesCommutes | oop/bigint.c++:274-305 | a * w == w * a, results and errors alike |
| Columns.RowColumnsByOne | oop/bigint.c++:290-294 | the row times 1 is the multiplicand, with no carry |
| Columns.RowOfOne | oop/bigint.c++:290-294 | the row of "1" times a digit is that digit |
| Columns.AddColumnsOverZeros | oop/bigint.c++:196-201 | zeros added column by column to a digit string give that string, with no carry |
| Columns.AddMagnitudesOverZeros | oop/bigint.c++:192-206 | a digit followed by n zeros plus an n-digit string is that digit in front of the string |
| MutableBigInts.MutableBigInt.constructor | oop/bigint.c++:4-6 | `bigint()` holds 0 |
| MutableBigInts.MutableBigInt.Copy | oop/bigint.c++:329-331 | a copy holds the same sign and digits |
| MutableBigInts.MutableBigInt.Assign | oop/bigint.c++:107 | `operator=` copies both fields |
| MutableBigInts.MutableBigInt.SetValue | oop/bigint.c++:44-49 | valid text replaces the value with its parse; invalid text fails with the parse error and leaves the object unchanged |
| MutableBigInts.MutableBigInt.SetSign | oop/bigint.c++:65-67 | sets the sign and keeps the digits |
| MutableBigInts.MutableBigInt.SetSignChar | oop/bigint.c++:69-75 | '+' and '-' set the sign; any other character fails with IllegalSign and changes nothing |
| MutableBigInts.MutableBigInt.MakeNegative | oop/bigint.c++:77-80 | makes the object negative and returns a copy of it |
| MutableBigInts.MutableBigInt.MakePositive | oop/bigint.c++:82-85 | makes the object positive and returns a copy of it |
| MutableBigInts.MutableBigInt.AddAssign | oop/bigint.c++:307-309 | the object becomes old + what; if `+` fails the object is unchanged |
| MutableBigInts.MutableBigInt.SubAssign | oop/bigint.c++:311-313 | the object becomes old - what; if `-` fails the object is unchanged |
| MutableBigInts.MutableBigInt.MulAssign | oop/bigint.c++:315-317 | the object becomes old * factor; if `*` fails the object is unchanged |
| MutableBigInts.MutableBigInt.PreIncrement | oop/bigint.c++:157-160 | the object becomes old + 1, which is returned |
| MutableBigInts.MutableBigInt.PostIncrement | oop/bigint.c++:162-166 | the object becomes old + 1, and the old value is returned |
| MutableBigInts.MutableBigInt.PreDecrement | oop/bigint.c++:168-171 | the object becomes old - 1, which is returned |
| MutableBigInts.MutableBigInt.PostDecrement | oop/bigint.c++:173-177 | the object becomes old - 1, and the old value is returned |
| MutableBigInts.StepNeverFails | oop/bigint.c++:157-177 | `+ 1` and `- 1` never fail on a valid value |
| MutableBigInts.IncrementIsSuccessor | oop/bigint.c++:157-160 | `++` adds one when the loop it reaches is exact: the carry loop on a positive value, the borrow loop on a negative one without leading zeros |
| MutableBigInts.DecrementIsPredecessor | oop/bigint.c++:168-171 | `--` subtracts one from a positive value other than zero, without leading zeros, when its borrow loop is exact |
| MutableBigInts.DecrementQuirks | oop/bigint.c++:168-171 | `--` on 0 gives 1 and on -3 gives 4 |
| MutableBigInts.IncrementLosesCarry | oop/bigint.c++:157-160 | `++` on 199 gives 1100 |
| CsvTables.NewCsv | oop/csv.c++:4-8 | succeeds iff delimiter and grouper differ, otherwise fails naming the character |
| CsvTables.Csv.Valid | oop/csv.c++:4-8 | the invariant the constructor establishes, delimiter and grouper differ: no contract of its own; NewCsv returns exactly the valid parsers |
| CsvTables.Step | oop/csv.c++:26-36 | one character of the line loop: no contract of its own; RunFromStart, RunFlag, RunCells and RunStoresNoGrouper state what the steps compute |
| CsvTables.Run | oop/csv.c++:26-36 | the line loop over a prefix: no contract of its own; RunFromStart, RunAppend and RunGrouped state what it computes |
| CsvTables.ParseLine | oop/csv.c++:24-48 | one line: no contract of its own; ParseLineSound states the row or the error |
| CsvTables.Pieces | oop/csv.c++:17 | the pieces between newlines: no contract of its own; PiecesExtend, JoinOfSplit and SplitOfJoin state what it computes |
| CsvTables.Split | oop/csv.c++:17 | `split_string(raw_csv, "\n")`: no contract of its own; JoinOfSplit and SplitOfJoin make it the inverse of joining by newlines |
| CsvTables.ParseLines | oop/csv.c++:17-49 | the loop over lines: no contract of its own; ParseLinesRows, ParseLinesFirstError and ParseLinesAborts state the table or the error |
| CsvTables.ParseText | oop/csv.c++:11-52 | `CSV::parse`: no contract of its own; ParseTextIsParseLines, ExportRoundTrip and the example lemmas state what it computes |
| CsvTables.ExportRow | oop/csv.c++:82-84 | one exported row: no contract of its own; ReadExportedRow and ExportRowNoNewline state what it means |
| CsvTables.ExportText | oop/csv.c++:81-86 | the text `export_file` writes: no contract of its own; ExportTextIsJoin, ParseExportLines and ExportRoundTrip state what it means |
| CsvTables.ParseLinesAborts | oop/csv.c++:17-49 | once a prefix of the lines fails, the whole parse fails with that error |
| CsvTables.Parse | oop/csv.c++:11-52 | the nested loops over lines and characters compute ParseText |
| CsvTables.Export | oop/csv.c++:81-86 | the export loops write ExportText |
| CsvTables.RunFromStart | oop/csv.c++:24-36 | after a line's characters the flag, the finished cells and the open cell are the reference definitions below |
| CsvTables.RunFlag | oop/csv.c++:31-32 | the group flag is set exactly when the line so far holds an odd number of groupers |
| CsvTables.RunCells | oop/csv.c++:27-35 | the finished cells are as many as the ungrouped delimiters; the open cell is the text after the last one; together they are the line without groupers and ungrouped delimiters |
| CsvTables.RunStoresNoGrouper | oop/csv.c++:31-34 | no cell ever holds the grouper |
| CsvTables.ParseLineSound | oop/csv.c++:24-48 | a line fails iff its group is left open, with UnclosedGroup naming the line; otherwise the row has one cell per ungrouped delimiter plus one for a non-empty trailing cell, its cells concatenate to the line without groupers and ungrouped delimiters, and no cell holds the grouper |
| CsvTables.AllParseAppend | oop/csv.c++:17-49 | all lines parse after one more iff all did before and the new one does |
| CsvTables.RowsOfAppend | oop/csv.c++:48 | a parsed line appends its row |
| CsvTables.ParseLinesRows | oop/csv.c++:17-49 | the parse succeeds iff every non-empty line parses, and then the table holds their rows in order, one per line |
| CsvTables.ParseLinesFirstError | oop/csv.c++:17-49 | a failed parse reports the error of the first non-empty line that fails, after lines that all parse |
| CsvTables.ExportLines | oop/csv.c++:81-86 | one exported line per row |
| CsvTables.PiecesExtend | oop/csv.c++:17 | text without a newline only extends the current line |
| CsvTables.JoinExtendsLast | oop/csv.c++:17 | joining lines, then appending, is appending to the last line |
| CsvTables.JoinOfSplit | oop/csv.c++:17 | splitting on newlines and joining back gives the text, and the pieces hold no newline |
| CsvTables.SplitOfJoin | oop/csv.c++:17 | joining newline-free lines and splitting again gives the lines |
| CsvTables.ParseTextIsParseLines | oop/csv.c++:14-17 | the early return for "" and "\n" agrees with parsing the split lines |
| CsvTables.RunAppend | oop/csv.c++:26-36 | scanning two texts in turn is scanning their concatenation |
| CsvTables.RunGrouped | oop/csv.c++:26-36 | inside a group every character but the grouper is cell text |
| CsvTables.ReadExportedCell | oop/csv.c++:83 | grouper, cell, grouper, delimiter is read as that cell |
| CsvTables.ReadExportedRow | oop/csv.c++:82-84 | an exported row is scanned back to the row, with nothing open |
| CsvTables.ExportTextIsJoin | oop/csv.c++:81-86 | the exported text is the exported lines joined by newlines, with a final newline |
| CsvTables.ExportRowNoNewline | oop/csv.c++:82-84 | an exported row has no newline when its cells, delimiter and grouper have none |
| CsvTables.ParseExportLines | oop/csv.c++:81-86 | the exported lines parse back to the table |
| CsvTables.ExportRoundTrip | oop/csv.c++:81-86 | parsing the text `export_file` writes gives back the table, when the delimiter and grouper differ and are not newlines, every row has a cell, and no cell holds the grouper or a newline |
| CsvTables.RunPlain | oop/csv.c++:33-34 | outside a group, text without delimiter or grouper is appended to the open cell |
| CsvTables.RunPlainCell | oop/csv.c++:27-30 | a plain cell followed by the delimiter is pushed onto the row |
| CsvTables.ParseLastPlainCell | oop/csv.c++:42-46 | a non-empty last cell is pushed at the end of the line |
| CsvTables.ParseSingleCell | oop/csv.c++:24-48 | a line of one plain cell is a row of that cell |
| CsvTables.ParseLoremIpsum | oop/csv.c++:24-48 | "lorem,ipsum" is the row lorem, ipsum |
| CsvTables.ParseDolorSitAmet | oop/csv.c++:24-48 | "dolor,sit,amet" is the row dolor, sit, amet |
| CsvTables.ParseGroupedMiddle | oop/csv.c++:26-36 | a grouped middle cell keeps its delimiters and loses its groupers |
| CsvTables.ParseGroupWithDelimiters | oop/csv.c++:26-36 | `dolor,"sit sit, sit, sit",amet` is the row dolor, `sit sit, sit, sit`, amet |
| CsvTables.ParseDelimitedCells | oop/csv.c++:27-46 | three cells each closed by the delimiter give three cells, not four |
| CsvTables.ParseEmptyCells | oop/csv.c++:27-46 | "a,,b," is the row a, "", b: the empty middle cell is kept and the empty last one dropped |
| CsvTables.ParseUnclosedGroup | oop/csv.c++:38-40 | `a,"b` fails with UnclosedGroup naming the line |
| CsvTables.ParseTextOfLines | oop/csv.c++:14-19 | newline-free lines, joined, are parsed line by line |
| CsvTables.ParseThreeLines | oop/csv.c++:17-49 | three non-empty lines that parse give their three rows in order |
| CsvTables.ParseWithoutGroupers | oop/csv.c++:11-52 | the three-line table without groupers parses to its rows |
| CsvTables.ParseWithGroupersAndDelimiters | oop/csv.c++:11-52 | the three-line table with a grouped cell holding delimiters parses to its rows |
| CsvTables.DefaultCsv | test.cpp:263-264 | the parser `CSV()` with a comma as delimiter and a double quote as grouper: a constant used by the example lemmas |
| CsvTables.ParseNothing | oop/csv.c++:14-15 | "" and "\n" give an empty table |

The examples in `CsvTables` use a comma as delimiter and a double quote as grouper, the defaults of `CSV()`. Those defaults are declared in the header, which is not part of this model.

## Left out

- `bigint::random` (oop/bigint.c++:30-42) draws from the global `rand()`; it is not modelled.
- The debug print of each partial product (oop/bigint.c++:297) and the stream operators `<<` and `>>` (oop/bigint.c++:333-342) are console I/O. `>>` is `set_value` on a word that is read in.
- `get_numeric_string`, `get_sign`, `is_positive`, `is_negative` and `count_digits` (oop/bigint.c++:61-105) read a field or its length. The model reads the `sign` and `digits` fields directly.
- `operator std::string` (oop/bigint.c++:324-326) is `to_string`, and `clone` (oop/bigint.c++:329-331) is the copy constructor.
- `CSV::parse_file`, the file handling of `export_file`, and `get_delimiter`/`get_grouper` (oop/csv.c++:55-79, 88-99) open, create and close files or read a field. Only the text that is read or written is modelled.
- oop/logger.c++ (console and file logging), main.cpp (a command loop) and test.cpp (unit tests, whose CSV cases appear here as example lemmas) are not part of this model.
- Arithmetic.TimesOneDigit: the numeric meaning of `*` is proved only for a one-digit multiplier. Longer multipliers are modelled exactly but not related to the product.
- MutableBigInts.MutableBigInt.PreIncrement: `++` and `--` have no error path. `1` has digits, so the `+` or `-` they call is proved never to fail (StepNeverFails).
- Characters: a Dafny `char` is a Unicode scalar value, while a C++ `char` is a byte. On non-ASCII text the constructor (oop/bigint.c++:15-18) names the first byte of the character's UTF-8 encoding in its exception, where `BigInts.Parse` names the whole character. `CsvTables.NewCsv` (oop/csv.c++:4) accepts delimiters and groupers that no C++ `char` can hold.
- References: `operator=`, prefix `++` and `--`, `+=`, `-=` and `*=` return `bigint&` (oop/bigint.c++:107, 157-160, 168-171, 307-317), so `(x += y) += z` and `++(++x)` act on `x` itself. The model's methods return a copy of the new value or an `Outcome`, so this aliasing through the returned reference is not modelled.
- Machine integers: the column sums are single digits plus a carry, so no `int` overflows. Lengths are unbounded.
