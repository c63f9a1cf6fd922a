# rustic-sql in Dafny

A model of the core of rustic-sql. rustic-sql is a small SQL interpreter that
keeps each table in a CSV file: the first line is the header of column names,
and every following line is one row. The model covers the following parts.

- **The query tokenizer** (`tokens_from_query`). This is a character-class scanner. It handles runs
  of letters and `_`, runs of digits, quoted spans, parenthesised spans and
  runs of other symbols. Whitespace and `,` separate tokens. Every `;` is
  removed before the scan and empty tokens are dropped after it.
- **The `WHERE` condition tree and its evaluator.**
  - A condition is a comparison of a field with a literal, or an `AND`, `OR` or `NOT` node.
  - Comparisons are string comparisons, even between numerals.
  - Comparing a numeral with a non-numeral is `InvalidSyntax`.
  - A missing field is `Error`.
  - `AND` and `OR` always evaluate both operands.
- **The clause recognisers** (`new_from_tokens`). There is one for each of
  `SELECT`, `UPDATE`, `DELETE`, `INSERT`, `INTO`, `SET`, `ORDER BY` and
  `WHERE`. Each splits the tokens by keyword position, with the source's
  length and keyword checks.
- **The row transforms over an in-memory table.**
  - `SELECT` filters rows, sorts them and projects columns.
  - `UPDATE` assigns values.
  - `DELETE` keeps the rows whose condition is false.
  - `INSERT` reorders the supplied values into the header's column order.
  - `ORDER BY` sorts in place.
  - `to_csv` and `table_to_csv` serialise registers and tables.

## How the model is built

There is one Dafny module per source file:

| module | source file |
|---|---|
| `Tokens` | `tokens.rs` |
| `Conditions` | `condition.rs` |
| `WhereClause` | `where_sql.rs` |
| `SetClause` | `set_sql.rs` |
| `IntoClause` | `into_sql.rs` |
| `OrderByClause` | `orderby_sql.rs` |
| `SelectClause` | `select_sql.rs` |
| `UpdateClause` | `update_sql.rs` |
| `DeleteClause` | `delete_sql.rs` |
| `InsertClause` | `insert_sql.rs` |
| `Registers` | `register.rs` |
| `Utils` | `utils.rs` |
| `Tables` | `table.rs` |

- `Errors`, `Operators` and `Tables` hold the plain datatypes.
- `Strings` holds the parts of Rust's string library the program relies on: `split`, `join`, `trim`, `replace`, and the ordering of `String`.
- `TokensExample` holds the tokenizer's documentation example; `ExampleQuery` holds that example's query text.

**Data**
- A register (one row) is a `map<string, string>`.
- A table is a header plus a sequence of registers.
- `Insert` is a class because `reorder_values` rewrites its two fields in place.

**Loops are methods proved against specification functions.**
- The tokenizer's dispatch loop keeps `tokens + Scan(s, index) == Scan(s, 0)`. `Scan` is the function that says what the scanner produces.
- Each `apply_to_table` row loop is proved equal to a function of the lines read so far (`Kept`, `Updated`, `Remaining`). That function carries the first error of any line.
- `OrderBy::execute` sorts an `array` in place. It ensures the result is a permutation of the input, sorted under the comparator.

**Inputs the model takes as parameters**
- The recursive condition parser (`recursive_parser::parse_condition`) is not part of this model. The recognisers that use it take it as a parameter `parse`. Given the tokens and a cursor, `parse` returns a condition and a new cursor, or an error.
- Each table is given as the sequence of its lines, header first.

**Keyword tests.** The keyword tests of `utils.rs` (`is_and` … `is_values`) are the predicates `Utils.IsAnd` … `Utils.IsValues`. Each is exact, case-sensitive equality with its keyword.

**Numbers.** `is_number` is `Utils.IsNumber`. It is defined through a model of Rust's `i32` parser: an optional sign, then digits accumulated with an overflow check.

**Behaviour of the code worth noting.** The model follows the code as written in each of these cases.
- A simple condition between a numeral and a non-numeral fails with `InvalidSyntax`, even when it is well formed (`Conditions.MixedTypes`). So a well-formed three-token comparison can still raise the malformed-expression error.
- A symbol token is the longest run of characters that are neither alphanumeric nor whitespace, not a single character. So `>=` and `<>` are one token each.
- The `ORDER BY` recogniser rejects its input only when `tokens[0]` is not `ORDER` *and* `tokens[1]` is not `BY` (`orderby_sql.rs:53`). So `ORDER x y` is accepted as written.
  - Inside `SELECT` this is unreachable: the segment passed to it always begins with `ORDER`, and when it is longer than one token, its second token is `BY`.

## Model

| member | source | states |
|---|---|---|
| Tokens.RunEnd | src/tokens.rs:46-54 | The end of the maximal run of class characters starting at an index: every character before it is in the class, and the character at it (if any) is not. |
| Tokens.RunEndAt | src/tokens.rs:46-54 | The run end is unique: any index that closes a maximal run is `RunEnd`. |
| Tokens.Step | src/tokens.rs:18-34 | One dispatch turn always advances the index (at least one character, at most one past the end). It emits at most one token, made only of characters of the input. |
| Tokens.Scan | src/tokens.rs:18-34 | The dispatch loop from an index yields no more tokens than there are characters left to read. |
| Tokens.NonEmpty | src/tokens.rs:36 | `retain(!is_empty)`: a token survives exactly when it is in the input and is not empty. |
| Tokens.NonEmptyKeeps | src/tokens.rs:36 | A sequence without empty tokens is left unchanged. |
| Tokens.ProcessAlphabetic | src/tokens.rs:40-58 | Pushes the maximal run of letters and `_` at the index and returns the run's end. The token consists only of letters and `_`. |
| Tokens.ProcessNumeric | src/tokens.rs:60-78 | Pushes the maximal run of digits and returns its end. The token consists only of digits. |
| Tokens.ProcessQuotes | src/tokens.rs:80-99 | Pushes the text between the quote and the next quote, which contains no quote. It resumes one past the closing quote, which may lie past the end when the quote is unterminated. |
| Tokens.ProcessParen | src/tokens.rs:101-120 | Pushes the text after `(` up to the first `)`, which contains no `)`, and resumes one past it. |
| Tokens.ProcessOther | src/tokens.rs:122-139 | Pushes the maximal run of characters that are neither alphanumeric nor whitespace. |
| Tokens.Dispatch | src/tokens.rs:19-33 | The branch the current character selects. Its effect on the index and the token list is exactly one `Step`. |
| Tokens.TokensFromQuery | src/tokens.rs:10-38 | The imperative tokenizer returns `Tokenize(query)`: the scan of the query without `;`, with empty tokens removed. |
| Tokens.Tokenize | src/tokens.rs:10-38 | `tokens_from_query` as a function: no more tokens than the query has characters, and none of them empty. |
| Tokens.ScanCharsFromInput | src/tokens.rs:18-34 | Every scanned token is made of characters of the scanned text. |
| Tokens.TokensNonEmptyWithoutSemicolon | src/tokens.rs:15-36 | No output token is empty or contains `;`. Every character of every token occurs in the query. |
| Tokens.SeparatorsSkipped | src/tokens.rs:29-30 | Whitespace and `,` start no token: the scan from a separator equals the scan from the next character. |
| Tokens.UnterminatedQuote | src/tokens.rs:86-95 | A quote with no closing quote after it makes the rest of the input one token. |
| TokensExample.ScanWord | src/tokens.rs:40-58 | A maximal word run is emitted as one token and the scan continues at its end. |
| TokensExample.ScanSymbol | src/tokens.rs:122-139 | A maximal symbol run is emitted as one token and the scan continues at its end. |
| TokensExample.ScanQuoted | src/tokens.rs:80-99 | A closed quoted span is emitted as its interior and the scan continues after the closing quote. |
| TokensExample.TrailingSemicolon | src/tokens.rs:15 | A `;` appended to a text without one changes nothing in the tokens. |
| TokensExample.ExampleScan | src/tokens.rs:5-7 | The example query without its `;` scans to the eight example tokens. |
| TokensExample.TokenizeExample | src/tokens.rs:5-7 | `SELECT * FROM table WHERE column = 'value';` tokenizes to `SELECT`, `*`, `FROM`, `table`, `WHERE`, `column`, `=`, `value`. |
| Utils.AccumulateExact | src/utils.rs:77-79 | The parser's checked digit loop succeeds exactly when every character is a digit and the value stays within the limit, and then yields that value. |
| Utils.ParseI32 | src/utils.rs:78 | `parse::<i32>` succeeds only on a non-empty text whose characters after the first are digits, and its value lies in the 32-bit signed range. |
| Utils.IsNumber | src/utils.rs:77-79 | A number is a non-empty token whose characters after the first (a sign or a digit) are all digits. |
| Utils.IsNumberIffDenotesI32 | src/utils.rs:77-79 | `is_number` holds exactly for an optionally signed, non-empty digit string whose value fits a 32-bit signed integer. The parsed value is the numeral's value with its sign. |
| Utils.IsNumberExamples | src/utils.rs:63-79 | `123` is a number; `hola`, a lone `-` and the empty string are not. |
| Utils.TableToCsv | src/utils.rs:50-61 | Fails with `Error` exactly when some register lacks an ordered column. Otherwise it returns `|registers| + 1` lines: the header joined by commas, then each register's values in column order joined by commas. |
| Registers.CsvValues | src/register.rs:55-58 | The register's values, one per requested column, in the requested order. |
| Registers.ToCsv | src/register.rs:52-63 | Fails with `Error` exactly when a requested column is missing. Otherwise it returns the values in column order joined by commas. |
| Registers.ToCsvExample | src/register.rs:40-49 | `{id: 1, name: Alen, age: 25}` under `[id, name, age]` serialises to `1,Alen,25`. |
| Registers.Zip | src/clauses/select_sql.rs:87-97 | The register read from a line has exactly the header's columns as keys. |
| Registers.FromLine | src/clauses/select_sql.rs:87-97 | `convert_line_to_register`: the insertion loop builds `Zip(header, split(line))`. |
| Registers.CopyColumns | src/clauses/select_sql.rs:215-220 | The copy has exactly the header's columns. Each takes the original's value, or `""` where the original has none. |
| Registers.ZipLookup | src/clauses/select_sql.rs:90-94 | A header column that is not repeated later holds its own field of the line. |
| Registers.CsvRoundTrip | src/register.rs:52-63 | Serialising a register and reading the line back under the same header gives the register again. This holds when the header has no repeats, covers the register's keys, and no value holds a comma. |
| Conditions.NewSimple | src/clauses/condition.rs:71-84 | Succeeds exactly for `=`, `>` and `<`, mapped to `Equal`, `Greater` and `Lesser`, keeping the field and the value. Any other operator token is `InvalidSyntax`. |
| Conditions.NewSimpleFromTokens | src/clauses/condition.rs:50-69 | From a cursor at or before the end, the cursor ends at `min(pos + 3, len)` in every outcome. With three tokens left the result is `new_simple` of them; otherwise it is `InvalidSyntax`. |
| Conditions.NewComplex | src/clauses/condition.rs:125-135 | The node holds the given left operand (present or absent), the operator and the right operand unchanged. |
| Conditions.Compare | src/clauses/condition.rs:156-160 | When a comparison holds, its operands are equal exactly when the operator is `=`: `<` and `>` never hold between equal strings. |
| Conditions.Execute | src/clauses/condition.rs:144-195 | Evaluation fails only with `Error` or `InvalidSyntax`. |
| Conditions.MissingField | src/clauses/condition.rs:152-163 | A comparison on a field the register lacks is `Err(Error)`, never true or false. |
| Conditions.MixedTypes | src/clauses/condition.rs:153-155 | A comparison between a numeral and a non-numeral is `Err(InvalidSyntax)`. |
| Conditions.ComparisonTrichotomy | src/clauses/condition.rs:156-160 | For comparable operands, the three comparisons succeed and exactly one of `<`, `=` and `>` is true: the raw strings are compared in one total order. |
| Conditions.NotNegates | src/clauses/condition.rs:170-173 | `NOT` negates its operand's result and passes its error through. |
| Conditions.BinaryWithoutLeft | src/clauses/condition.rs:174-191 | `AND` or `OR` without a left operand is `Err(Error)`. |
| Conditions.BinaryEvaluatesBoth | src/clauses/condition.rs:174-191 | `AND` and `OR` evaluate left, then right, with no short circuit. A left error wins, then a right error; otherwise the result is `&&` or `\|\|`. |
| Conditions.ExecuteReadsOnlyFields | src/clauses/condition.rs:144-195 | Two registers that agree on the fields a condition names give the same result. |
| Conditions.ExecuteOkIffEvaluable | src/clauses/condition.rs:144-195 | Evaluation succeeds exactly when every named field is present and comparable with its literal, and every `AND`/`OR` has a left operand. |
| Conditions.ExecuteSimpleExamples | src/clauses/condition.rs:292-316 | On the test register, `age > 18` is true, `age > 40` is false, and `NOT name = Emily` is true. |
| Conditions.ExecuteNotAndExample | src/clauses/condition.rs:443-477 | `(NOT age > 40) AND city = Gaiman` is true on the test register. |
| Conditions.ExecuteNestedNotExample | src/clauses/condition.rs:480-518 | `NOT (city = Gaiman AND (age > 18 OR lastname = Davies))` is false on the test register. |
| Conditions.ExecuteAndOrExample | src/clauses/condition.rs:522-556 | `city = Gaiman AND (age > 30 OR lastname = Davies)` is true on the test register. |
| WhereClause.NewFromTokens | src/clauses/where_sql.rs:42-50 | Fewer than four tokens is `InvalidSyntax` before any parsing. Otherwise parsing starts at index 1, a parse error is returned unchanged, and success wraps the parsed condition. |
| WhereClause.NewFromTokensIgnoresKeyword | src/clauses/where_sql.rs:46-47 | Token 0 is never inspected: inputs of equal length that the parser reads alike give the same result. |
| WhereClause.NewFromTokensExample | src/clauses/select_sql.rs:306-331 | `WHERE cantidad > 1` gives the comparison `cantidad > 1`, with a parser that reads it so. |
| WhereClause.Execute | src/clauses/where_sql.rs:60-62 | A `WHERE` clause evaluates exactly as its condition on the register's map. |
| WhereClause.Admits | src/clauses/select_sql.rs:212-229 | An absent clause admits every register; a present one admits as its condition evaluates. |
| SetClause.AssignmentsBelow | src/clauses/set_sql.rs:42-47 | The `=` positions the loop uses, in increasing order. Each has a token on both sides, so a trailing `=` is never used. |
| SetClause.AssignmentsBelowComplete | src/clauses/set_sql.rs:42-47 | No `=` with a token on both sides is skipped. |
| SetClause.PairsBelow | src/clauses/set_sql.rs:42-47 | The push loop's pairs are made of the statement's own tokens: each column and each value is one of them. |
| SetClause.PairsAtAssignments | src/clauses/set_sql.rs:42-48 | One pair per usable `=`, in left-to-right order: the tokens just left and just right of it. |
| SetClause.NewFromTokens | src/clauses/set_sql.rs:33-50 | Fails with `InvalidSyntax` exactly when the first token is not `SET` or no token is `=`. Otherwise it returns the pairs of the scan. |
| SetClause.PairsExample | src/clauses/set_sql.rs:26-30 | `SET age = 18` gives the single pair `(age, 18)`. |
| IntoClause.NewFromTokens | src/clauses/into_sql.rs:27-53 | Fails with `InvalidSyntax` exactly when there are fewer than three tokens or the first is not `INTO`. Otherwise the table name is `tokens[1]`, the columns are `ColumnList(tokens[2])`, and later tokens are ignored. |
| IntoClause.CollectColumns | src/clauses/into_sql.rs:40-44 | The push loop collects exactly the trimmed pieces of the column text. |
| IntoClause.ColumnListProperties | src/clauses/into_sql.rs:40 | There is one column per comma plus one. No column holds a comma, or starts or ends with whitespace. |
| IntoClause.ColumnListExample | src/clauses/insert_sql.rs:225-246 | `name, age` names the two columns `name` and `age`. |
| OrderByClause.DirectionIndex | src/clauses/orderby_sql.rs:59-62 | The first `DESC` or `ASC` at or after the start, or the end of the tokens. |
| OrderByClause.NewFromTokens | src/clauses/orderby_sql.rs:44-69 | Fails with `InvalidSyntax` exactly when there are fewer than three tokens, or `tokens[0]` is not `ORDER` and `tokens[1]` is not `BY`. Otherwise the columns are the tokens from index 2 up to the first `DESC`/`ASC`, and the order is that keyword or `""`. |
| OrderByClause.CmpStrings | src/clauses/orderby_sql.rs:84-86 | `String::cmp` is `Equal` exactly for equal strings. |
| OrderByClause.CmpStringsFlip | src/clauses/orderby_sql.rs:84-86 | Swapping the operands of `cmp` flips the result. |
| OrderByClause.CmpStringsTransitive | src/clauses/orderby_sql.rs:84-86 | `cmp` is transitive, strictly so when one step is strict. |
| OrderByClause.KeyCmpFlip | src/clauses/orderby_sql.rs:83-87 | Swapping the operands of a column comparison, ascending or `DESC`, flips the result. |
| OrderByClause.KeyCmpTransitive | src/clauses/orderby_sql.rs:83-87 | The column comparison is transitive in both directions. |
| OrderByClause.KeyCmp | src/clauses/orderby_sql.rs:83-87 | One column's comparison, ascending or reversed for `DESC`, says `Equal` exactly when the two values are equal. |
| OrderByClause.CompareRows | src/clauses/orderby_sql.rs:79-94 | The `sort_by` closure says `Equal` exactly when the two registers agree on every order column that both of them hold. |
| OrderByClause.Compare | src/clauses/orderby_sql.rs:78-95 | The comparator's loop returns `CompareRows`. The first order column present in both registers with differing values decides; otherwise the registers compare equal. |
| OrderByClause.CompareRowsFlip | src/clauses/orderby_sql.rs:78-95 | The comparator is antisymmetric: swapping the registers flips the result. |
| OrderByClause.CompareRowsReflexive | src/clauses/orderby_sql.rs:78-95 | Every register compares equal to itself. |
| OrderByClause.LeqTransitive | src/clauses/orderby_sql.rs:78-95 | Among registers carrying the same order columns, "not greater" is transitive, and strict when either step is strict. |
| OrderByClause.DescendingIsSwapped | src/clauses/orderby_sql.rs:83-87 | `DESC` compares as ascending with the registers swapped. Any order other than `DESC`, `""` included, is ascending. |
| OrderByClause.InsertStep | src/clauses/orderby_sql.rs:78 | One insertion step permutes the array and extends its sorted prefix by one register. |
| OrderByClause.Execute | src/clauses/orderby_sql.rs:77-97 | After the in-place sort the array is a permutation of its input and sorted under the comparator. |
| OrderByClause.DescendingExample | src/clauses/select_sql.rs:525-568 | Under `ORDER BY edad DESC`, `edad = 40` comes before `edad = 30`. |
| SelectClause.ParseColumns | src/clauses/select_sql.rs:32-46 | A first token other than `SELECT` is `InvalidSyntax`. Otherwise the columns are the tokens strictly between `SELECT` and the first `FROM`, and the cursor is left on that `FROM`. |
| SelectClause.ParseTableName | src/clauses/select_sql.rs:48-57 | On a `FROM`, the next token is the table name and the cursor moves past both; otherwise `InvalidSyntax` with the cursor unchanged. |
| SelectClause.WhereEnd | src/clauses/select_sql.rs:66-72 | The `WHERE` segment runs from a `WHERE` up to the first `ORDER`, and is empty when no `WHERE` stands at the cursor. |
| SelectClause.OrderBySegment | src/clauses/select_sql.rs:73-82 | The `ORDER BY` segment is `ORDER` alone when no `BY` follows; otherwise it runs from `ORDER` to the end. |
| SelectClause.CollectWhere | src/clauses/select_sql.rs:66-72 | The loop collects exactly the `WHERE` segment and stops at its end. |
| SelectClause.CollectOrderBy | src/clauses/select_sql.rs:73-82 | The loop collects exactly the `ORDER BY` segment. |
| SelectClause.ParseWhereAndOrderby | src/clauses/select_sql.rs:59-85 | The two segments, one after the other. |
| SelectClause.NewFromTokens | src/clauses/select_sql.rs:110-144 | Fewer than four tokens, or a first token other than `SELECT`, is `InvalidSyntax`. Otherwise it fails exactly when the columns or the table name are empty, or a present sub-clause is refused. Empty columns or an empty table name give `InvalidSyntax`, whatever the `WHERE` segment holds. Otherwise a refused `WHERE` segment gives exactly its own error, and every other refusal is `InvalidSyntax`. On success it holds the columns, the table name, and the `WHERE` and `ORDER BY` clauses recognised from their segments. |
| SelectClause.RecogniseSubclauses | src/clauses/select_sql.rs:126-136 | Each sub-clause is recognised only when its segment is non-empty. A refused `WHERE` segment gives exactly its own error; otherwise a refused `ORDER BY` segment gives `InvalidSyntax`; otherwise both clauses are returned. |
| SelectClause.OrderWithoutBy | src/clauses/select_sql.rs:73-82 | An `ORDER` with no `BY` after it makes the whole statement invalid. |
| SelectClause.Row | src/clauses/select_sql.rs:204-231 | A selected column missing from the header, without `*`, is `InvalidColumn`. Otherwise a `WHERE` error passes through, and the result is the whole register when admitted and the empty register when not. |
| SelectClause.RowKeptIff | src/clauses/select_sql.rs:212-230 | Under a non-empty header, a row is kept, and kept whole, exactly when there is no `WHERE` clause or it is true. |
| SelectClause.Execute | src/clauses/select_sql.rs:204-231 | `execute` computes `Row`. |
| SelectClause.Selected | src/clauses/select_sql.rs:147-156 | The projection keeps the header for `*` and the selected columns otherwise. |
| SelectClause.Restrict | src/clauses/select_sql.rs:159-164 | A register cut down to the given columns keeps exactly those of its keys, with their values. |
| SelectClause.FilterColumns | src/clauses/select_sql.rs:146-170 | `filter_columns` keeps the number of registers and cuts each down to the selected columns. |
| SelectClause.SelectAllKeepsRegister | src/clauses/select_sql.rs:148-151 | With `*`, a register over the header's columns is kept whole. |
| SelectClause.SelectColumnsKeepsSelected | src/clauses/select_sql.rs:152-164 | Without `*`, a column stays exactly when the register has it and it was selected. |
| SelectClause.KeptPrefixErr | src/clauses/select_sql.rs:181-192 | The first failing line decides the loop's error. |
| SelectClause.KeptShape | src/clauses/select_sql.rs:181-192 | Every collected register has exactly the header's columns. |
| SelectClause.KeptAllWithoutWhere | src/clauses/select_sql.rs:222-229 | Without a `WHERE` clause every line is collected, in order, as its whole register. |
| SelectClause.ReadRows | src/clauses/select_sql.rs:181-192 | The row loop returns the header split on commas and `Kept` of the data lines. |
| SelectClause.ApplyToTable | src/clauses/select_sql.rs:178-202 | A line's error is the result. Otherwise the table has the header and one register per kept row. These are the kept registers, sorted by `ORDER BY` when present as a sorted permutation, each cut down to the selected columns. |
| UpdateClause.WhereStart | src/clauses/update_sql.rs:69-73 | The `SET` segment ends at the first `WHERE` after index 2, or at the end. |
| UpdateClause.SplitAtWhere | src/clauses/update_sql.rs:69-80 | The inner loops collect the `SET` segment up to `WHERE`, then the `WHERE` segment to the end. |
| UpdateClause.NewFromTokens | src/clauses/update_sql.rs:50-101 | Fewer than six tokens, no `UPDATE` first, no `SET` third, or an empty table name is `InvalidSyntax`. A refused `WHERE` segment is its error. A `SET` segment without `=` is `InvalidSyntax`. On success: the table is `tokens[1]`, the `WHERE` clause comes from its segment, and the pairs are those of the `SET` segment. |
| UpdateClause.SetSegmentNonEmpty | src/clauses/update_sql.rs:84-86 | The empty-`SET` check never fires: the segment always starts with `SET`. |
| UpdateClause.ApplySet | src/clauses/update_sql.rs:145-147 | Writing the pairs adds exactly the named columns to the register's keys. |
| UpdateClause.ApplySetUntouched | src/clauses/update_sql.rs:145-147 | A column no pair names keeps its value. |
| UpdateClause.ApplySetLastWins | src/clauses/update_sql.rs:145-147 | A column takes the value of the last pair that names it. |
| UpdateClause.Row | src/clauses/update_sql.rs:130-156 | A `WHERE` error passes through. Otherwise the result is the line's register, with the pairs written when admitted and unchanged when not. |
| UpdateClause.RowKeepsUnnamedColumns | src/clauses/update_sql.rs:135-153 | A header column no pair names keeps the line's value. |
| UpdateClause.RowAssigns | src/clauses/update_sql.rs:141-153 | An admitted row takes, for each column, the value of the last pair naming it. |
| UpdateClause.Execute | src/clauses/update_sql.rs:130-156 | `execute` computes `Row`. |
| UpdateClause.UpdatedPrefixErr | src/clauses/update_sql.rs:115-126 | The first failing line decides the loop's error. |
| UpdateClause.UpdatedKeepsEveryRow | src/clauses/update_sql.rs:121-125 | Under a non-empty header every data row is kept, in order, as its `Row`. |
| UpdateClause.ApplyToTable | src/clauses/update_sql.rs:112-128 | The result is the header split on commas with `Updated` of the data lines, or the first line's error. |
| DeleteClause.WhereSegment | src/clauses/delete_sql.rs:72-77 | A `WHERE` is recognised only at index 3, and then the segment runs to the end. |
| DeleteClause.NewFromTokens | src/clauses/delete_sql.rs:55-95 | Fewer than three tokens, no `DELETE` first, no `FROM` second, or an empty table name is `InvalidSyntax`. Otherwise it fails exactly when a present `WHERE` segment is refused, with that error. On success: the table is `tokens[2]` and the `WHERE` clause comes from its segment. |
| DeleteClause.BareWhere | src/clauses/delete_sql.rs:87-89 | The lone `WHERE` segment of `DELETE FROM t WHERE` is refused with `InvalidSyntax`, so the statement is refused too. |
| DeleteClause.Row | src/clauses/delete_sql.rs:130-156 | A `WHERE` error passes through. Without a clause the result is the empty register. |
| DeleteClause.RowKeptIff | src/clauses/delete_sql.rs:143-153 | Under a non-empty header, a row is kept, and kept whole, exactly when the condition is false. |
| DeleteClause.Execute | src/clauses/delete_sql.rs:130-156 | `execute` computes `Row`. |
| DeleteClause.RemainingPrefixErr | src/clauses/delete_sql.rs:111-126 | The first failing line decides the loop's error. |
| DeleteClause.RemainingAreUnmatched | src/clauses/delete_sql.rs:121-125 | Every remaining register is the whole register of a data line whose condition is false. |
| DeleteClause.ApplyToTable | src/clauses/delete_sql.rs:108-128 | Without a `WHERE` clause, the header and no rows. Otherwise `Remaining` of the data lines, or the first line's error. |
| InsertClause.Position | src/clauses/insert_sql.rs:140 | `position` finds the first index holding the column. |
| InsertClause.Reordered | src/clauses/insert_sql.rs:138-152 | The reordered values have exactly the header's length. |
| InsertClause.ReorderedPlacesValues | src/clauses/insert_sql.rs:139-144 | Where the statement names each column once, a named column's value lands under that column in the header. |
| InsertClause.ReorderedFillsBlanks | src/clauses/insert_sql.rs:145-148 | A header column the statement does not name gets `""`. |
| InsertClause.ValueList | src/clauses/insert_sql.rs:79-83 | The value text, with quotes removed, split on commas and trimmed, gives at least one value. |
| InsertClause.ValueListClean | src/clauses/insert_sql.rs:79-83 | No value holds a quote or a comma. |
| InsertClause.Insert.constructor | src/clauses/insert_sql.rs:96-99 | The new statement holds the values and the `INTO` clause as given. |
| InsertClause.Insert.ReorderValues | src/clauses/insert_sql.rs:134-153 | The `INTO` columns become the header exactly, and the values become the reordered values. |
| InsertClause.Insert.ApplyToTable | src/clauses/insert_sql.rs:108-132 | The header is the trimmed first line split on commas. The fields are reordered to it, and the appended line is the new values joined by commas. |
| InsertClause.CollectInto | src/clauses/insert_sql.rs:69-75 | After `INSERT`, the loop collects the tokens up to `VALUES` and leaves the cursor on it. |
| InsertClause.CollectValues | src/clauses/insert_sql.rs:76-88 | On `VALUES`, the loop collects the value list of the next token; otherwise nothing. |
| InsertClause.NewFromTokens | src/clauses/insert_sql.rs:60-100 | Fewer than six tokens, no `INSERT` first, or no token between `INSERT` and `VALUES` is `InvalidSyntax`. Otherwise it fails exactly when the `INTO` part is refused. On success it holds the value list of the token after `VALUES` and the `INTO` clause. |
| InsertClause.InsertedLineReadsBack | src/clauses/insert_sql.rs:125 | The appended line splits back into exactly the reordered values. |
| InsertClause.InsertedRegister | src/clauses/insert_sql.rs:117-125 | The line reads back, under the same header, as a register that holds under each named column the value the statement gave it. |
| Strings.RemoveChar | src/tokens.rs:15 | `replace(c, "")` leaves no `c` and keeps every other character. |
| Strings.RemoveCharConcat | src/tokens.rs:15 | Removing a character distributes over concatenation. |
| Strings.Split | src/clauses/select_sql.rs:88 | `split` always yields at least one piece. |
| Strings.JoinSplit | src/clauses/into_sql.rs:40 | Joining the pieces of a split gives the string back. |
| Strings.SplitCount | src/clauses/into_sql.rs:40 | A split has one piece more than there are separators. |
| Strings.SplitPiecesFree | src/clauses/into_sql.rs:40 | No piece of a split holds the separator. |
| Strings.SplitJoin | src/register.rs:60 | Splitting a join of separator-free pieces gives the pieces back. |
| Strings.Join | src/register.rs:60 | Joining separator-free pieces puts exactly one separator between each two neighbours. |
| Strings.TrimStart | src/clauses/into_sql.rs:40 | `trim_start` drops exactly the leading whitespace. |
| Strings.TrimEnd | src/clauses/into_sql.rs:40 | `trim_end` drops exactly the trailing whitespace. |
| Strings.Trim | src/clauses/into_sql.rs:40 | `trim` gives a string no longer than its input, made of the input's characters. |
| Strings.TrimProperties | src/clauses/into_sql.rs:40 | A trimmed string neither starts nor ends with whitespace, and trimming such a string changes nothing. |
| Strings.LexLess | src/clauses/condition.rs:157-159 | String `<`: nothing is below the empty string, and a proper prefix is below the string it begins. |
| Strings.LexLessIrreflexive | src/clauses/condition.rs:157-159 | String `<` is irreflexive. |
| Strings.LexLessAsymmetric | src/clauses/condition.rs:157-159 | String `<` is asymmetric. |
| Strings.LexLessTransitive | src/clauses/condition.rs:157-159 | String `<` is transitive. |
| Strings.LexLessTotal | src/clauses/condition.rs:157-159 | Of two distinct strings one is less than the other. |

## Left out

- File I/O is not modelled: `open_table`, `write_table`, the reading of lines from a `BufReader`, and the `seek` and `writeln!` in `Insert::apply_to_table`. Each table is a sequence of lines, header first.
- A read error on a line (`SqlError::Error` at each `line.map_err`) is not modelled, since the lines are given.
- `find_file_in_folder` and `main.rs` (argument handling, dispatch, printing) are not modelled: they are file-system and console code.
- `recursive_parser::parse_condition` is not part of this model. It is a parameter of every recogniser that uses it, so no property of the grammar is claimed.
- The `Display` texts of `SqlError` are not modelled: they are presentation only.
- Rust panics from unchecked indexing become preconditions:
  - a `SELECT` without `FROM`, or without a token after it (`SelectClause.Indexable`);
  - an `INSERT` without `VALUES`, or without a token after it (`InsertClause.Indexable`);
  - an empty `SET` segment (`SetClause.NewFromTokens`);
  - a `VALUES` list with fewer entries than the position of a named column that occurs in the header (`insert_sql.rs:141`, `InsertClause.Supplied`, required by `InsertClause.Insert.ReorderValues` and `InsertClause.Insert.ApplyToTable`);
  - a data line with fewer fields than the header (`Registers.Fits`).
- SelectClause.ApplyToTable, UpdateClause.ApplyToTable, DeleteClause.ApplyToTable: require `Fits` of every data line. The program would panic only on a short line it actually reaches. Lines after the first error are never reached, so this requires a little more than the source does.
- OrderByClause.Execute: requires every register to carry the same order columns. Otherwise the comparator is not a total order and `sort_by` promises no order. For `SELECT` this always holds, because every collected register has the header's columns (`SelectClause.KeptShape`).
- OrderByClause.Execute: the standard library's stable merge sort is modelled by an insertion sort. The contract states the result by its properties (a permutation, sorted), not the relative order of registers that compare equal.
- HashMap iteration order is not modelled: a register is a map, and `SET` pairs are written in their list order.
- The tokenizer's character classes are the ASCII ones. The program indexes bytes (`len`) and characters (`chars().nth`) inconsistently, with a `'0'` fallback, which only agree on ASCII text. The model reads the text character by character. `trim` likewise uses ASCII whitespace.
- String comparison is lexicographic on characters. For ASCII this is Rust's byte order.
- SelectClause.ParseWhereAndOrderby: the source wraps the two segments in a `Result` that is never an error; the model returns the pair.
- InsertClause.Insert.ApplyToTable: returns the appended line instead of writing it. The line's terminating newline is left out.
- DeleteClause.Row: with no `WHERE` clause the result is the empty register. `apply_to_table` never calls `execute` in that case, because it returns the header alone.
