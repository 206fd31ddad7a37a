# Data Analysis Dashboard — a Dafny model of its table logic

The dashboard is an interactive console program: it loads a spreadsheet
into a table, reports missing values and optionally fills them with one of
five strategies, lets the user choose an identifier column and value
columns, ranks the rows by the sum of the value columns, and draws one of
four charts of the top rows. This project models the part of that program
that has checkable meaning, as pure functions over immutable values:

- `Tables` (tables.dfy): a table is a row count and an ordered list of
  named columns, each tagged numeric or text, whose cells are `Missing`,
  `Num(real)` or `Text(string)`. `WellFormed` says every column has the row
  count, numeric columns hold no text, and names are distinct.
- `Text` (text.dfy): Python's `str.strip()`, `str.split(',')`, the
  `lower() == 'yes'` test and base-10 `int()`.
- `Stats` (stats.dfy): sum, mean, sort and median on exact reals.
- `Fill` (fill.dfy): the null handler — zero, mean, median, forward and
  backward fill, and the prompt logic around them.
- `Selector` (selector.dfy): the identifier and value-column prompts and
  their retry loops over a stream of input lines.
- `Ranking` (ranking.dfy): the working copy with its `Total` column, the
  count prompt, the top-N rows and the subplot grid size.
- `Dashboard` (dashboard.dfy): the main menu as a transition function over
  a session that is either empty or holds a table and its path.

Prompt answers, the loader's result and the outcome of the library fill
call are parameters. Points of the code's behaviour worth knowing:

- The model follows pandas 2.x. The row sum at app.py:86 and `nlargest`
  at app.py:92 lie before the `try` at app.py:103, so a non-numeric value
  column ends the process at one of them. Any object-dtype value column
  gives an object `Total`, which `nlargest` rejects, so the crash happens
  exactly when a value column is text. `Dashboard.Step` models this
  as the `Crash` outcome.
- `describe()` at app.py:59 raises on a table without columns (what an
  empty first sheet loads as), outside any `try`, so option 2 on such a
  table also ends the process (`Crash`).
- `int()` refuses decimal strings of more than 4300 digits (Python's
  default conversion limit), so such a count answer gives 4.
- The fill-method answer is compared unstripped (app.py:28-40), so `" 1"`
  is an invalid method.
- `nlargest` with a count of zero or less keeps no rows.

## Model

| member | source | states |
|---|---|---|
| Tables.MissingIn | app.py:20 | the per-column null count is at most the column length, and zero exactly when no cell of the column is missing |
| Tables.NullCountPositive | app.py:20-24 | the table's total null count is positive exactly when some cell is missing, which is when a fill is offered |
| Text.StripSlice | app.py:69 | the stripped answer neither starts nor ends with whitespace, and it is one contiguous slice of the answer with only whitespace dropped from both ends |
| Text.StripIdempotent | app.py:69 | Python's `strip()` is idempotent: the stripped answer is its own stripped form |
| Text.Split | app.py:76 | splitting on `,` yields at least one piece and no piece contains a comma |
| Text.JoinSplit | app.py:76 | re-joining the pieces with `,` gives back the answer exactly, so no character is lost or reordered |
| Text.SplitJoin | app.py:76 | comma-free pieces joined with `,` split back into the same pieces |
| Text.IsYesCases | app.py:25-26 | the yes/no answer is accepted exactly for the eight capitalisations of "yes" |
| Text.ParseShow | app.py:89 | `int()` parses the decimal rendering of every integer of at most 4300 digits back to that integer, and refuses every longer one |
| Text.ParsePadded | app.py:89 | for every integer and every padding of whitespace that `int()` skips (space, `\t` to `\r`, non-ASCII `isspace`) on either side, `int()` reads the padded rendering as the integer within the digit limit and refuses it beyond |
| Text.ParseIntSpaces | app.py:89 | examples: `" 5\n"` reads as 5 and NBSP/ideographic-space padded `-7` as -7, while `"\x1c5"` is refused although `strip()` removes U+001C |
| Stats.Mean | app.py:34 | the mean times the count equals the sum, and the mean lies between two of the values |
| Stats.Median | app.py:36 | at most half the values lie strictly below the median and at most half strictly above, and it lies between two of the values; for an even count it is the average of the lower and the upper middle value |
| Stats.EvenMedianOfSort | app.py:36 | for an even count the two middle values of the sorted column are the lower and the upper middle, and the sorted median is their average |
| Stats.MiddlesUnique | app.py:36 | only one value is the lower middle and only one the upper middle, so the even-count median is determined |
| Stats.OddMiddleUnique | app.py:36 | for an odd count only one value has at most half the values on each side, so the odd-count median is determined |
| Stats.Sort | app.py:36 | the values are ordered ascending as a permutation of the input, which is the order the median is read from |
| Fill.FillWith | app.py:32 | every missing cell takes the fill value and every present cell is kept, position by position |
| Fill.LastPresentNearest | app.py:38 | the value forward fill carries is the nearest present cell above, after which only missing cells follow |
| Fill.FirstPresentNearest | app.py:40 | the value backward fill carries is the nearest present cell below, before which only missing cells come |
| Fill.ForwardFill | app.py:38 | each cell after forward fill is the last present cell at or above it |
| Fill.ForwardFillSpec | app.py:37-38 | forward fill keeps present cells, gives a missing cell the nearest earlier present value, leaves it missing exactly when nothing above it is present, and introduces no new value |
| Fill.BackwardFill | app.py:40 | each cell after backward fill is the first present cell at or below it |
| Fill.BackwardFillSpec | app.py:39-40 | backward fill keeps present cells, gives a missing cell the nearest later present value, leaves it missing exactly when nothing below it is present, and introduces no new value |
| Fill.BackwardFillMirror | app.py:37-40 | backward fill equals reversing the column, filling forward and reversing back |
| Fill.ForwardFillIdempotent | app.py:38 | forward filling a column twice gives the same column as filling it once |
| Fill.BackwardFillIdempotent | app.py:40 | backward filling a column twice gives the same column as filling it once |
| Fill.ForwardFillTableIdempotent | app.py:37-38 | forward filling a whole table twice gives the same table as once |
| Fill.BackwardFillTableIdempotent | app.py:39-40 | backward filling a whole table twice gives the same table as once |
| Fill.FillTable | app.py:30-40 | every strategy keeps the row count, the column names, kinds and lengths, and every present cell |
| Fill.ZeroFillSpec | app.py:31-32 | after zero fill no cell is missing and every formerly missing cell holds 0 |
| Fill.AggregateFillSpec | app.py:33-36 | mean and median fill leave text columns and numeric columns without present numbers untouched, and set each missing cell of any other numeric column to that column's mean or median over its present numbers |
| Fill.FillPreservesWellFormed | app.py:30-40 | no strategy breaks well-formedness: no text is written into a numeric column |
| Fill.FillWithoutMissing | app.py:24-40 | on a table without missing cells every strategy is the identity, consistent with the handler skipping the prompt |
| Fill.ParseMethod | app.py:28-42 | a method answer selects a strategy exactly when it is one of `0`-`4`, compared unstripped: 0 zero fill, 1 mean, 2 median, 3 forward fill, 4 backward fill |
| Fill.HandleNulls | app.py:18-45 | the table comes back unchanged when nothing is missing, the answer is not "yes", the method is unknown, or the fill raised; otherwise it is the table filled with the chosen strategy; well-formedness is kept |
| Selector.AcceptId | app.py:69-72 | an identifier answer is accepted exactly when its stripped form is a column name, and then that name is the result |
| Selector.KeepColumns | app.py:77 | every kept token is a column name |
| Selector.KeepColumnsOrder | app.py:77 | the kept tokens are a subsequence of the stripped tokens, so input order is kept |
| Selector.KeepColumnsCounts | app.py:77 | each column name is kept as often as it occurs among the stripped tokens, duplicates included, and nothing else is kept |
| Selector.KeepColumnsEmpty | app.py:77-78 | nothing is kept exactly when no stripped token names a column |
| Selector.AcceptValues | app.py:76-79 | an accepted value answer is a non-empty list of column names |
| Selector.AcceptValuesRejects | app.py:76-79 | a value answer is rejected exactly when none of its comma-separated, stripped tokens names a column |
| Selector.FirstAcceptedId | app.py:69-72 | the identifier prompt stops at the first line whose stripped form is a column, every earlier line having been rejected, or runs to the end of the input |
| Selector.FirstAcceptedValues | app.py:74-80 | the value prompt stops at the first line keeping at least one column, every earlier line having been rejected, or runs to the end of the input |
| Selector.SelectColumns | app.py:64-81 | the result uses the first acceptable identifier line and the first acceptable value line after it, every earlier line having been rejected; the identifier is a column and the value list is non-empty and holds only columns |
| Ranking.NumericColumn | app.py:86 | a value column resolves to the numeric column of that name, and fails exactly when the named column is missing or text |
| Ranking.Totals | app.py:86 | the column-wise total of each row equals the row's sum over the listed columns, counting a repeated column twice and a missing cell as 0; it fails exactly when a listed column is not numeric |
| Ranking.WithTotal | app.py:85-86 | the working copy keeps every other column of the caller's table and has a numeric `Total` column holding the totals, replacing an existing `Total` in place or appended |
| Ranking.WithTotalWellFormed | app.py:85-86 | the working copy of a well-formed table is well-formed |
| Ranking.ReadCount | app.py:88-91 | the count is 4 for a blank or unparsable answer and the parsed integer otherwise |
| Ranking.ReadCountPadded | app.py:88-91 | for every integer typed with whitespace that `int()` skips on either side, the count is that integer within the digit limit and the default 4 beyond |
| Ranking.ReadCountSpaces | app.py:88-91 | examples: `" 5\n"` gives 5 and `"\x1c5"` gives the default 4 |
| Ranking.ReadCountShow | app.py:88-91 | typing an integer of at most 4300 digits as the count yields that integer; a longer one yields the default 4 |
| Ranking.KeepCount | app.py:92 | the number of rows kept is none for `n <= 0`, and otherwise the smaller of `n` and the row count |
| Ranking.MaxPosition | app.py:92 | the chosen candidate has a total at least that of every other candidate |
| Ranking.TopN | app.py:92 | `min(n, rows)` distinct rows are kept in descending order of total, and every kept total is at least every excluded total |
| Ranking.SubplotRows | app.py:105 | the subplot grid's two columns of `(n + 1) // 2` rows give at least `n` slots and at most one spare |
| Ranking.SubplotSlots | app.py:105-110 | for a positive count the grid has a row and every kept row gets its own subplot slot |
| Ranking.Rank | app.py:83-92 | ranking succeeds exactly when every value column is numeric; then the count is the prompt's value, the working copy is the caller's table with the `Total` column of row sums added or overwritten, well-formed and with the caller's row count, and the kept rows are distinct, in descending order of row sum, and dominate the excluded ones by row sum |
| Ranking.ExampleTotals | app.py:86 | for regions A, B, C with Q1 = 10, 5, 100 and Q2 = 20, 5, 1 the totals are 30, 10, 101 |
| Ranking.ExampleTopTwo | app.py:92 | for those totals and a count of 2 the only admissible top rows are C then A |
| Dashboard.Step | app.py:162-188 | for the menu answer after stripping: choice 1 replaces table and path; 2 and 3 without a table change nothing; 2 on a table without columns crashes in `describe()`, and on any other table replaces it by the null handler's result; 3 never changes the session, runs out of input exactly when the selector does, and crashes exactly when the selected value columns are not all numeric; 4 exits; anything else changes nothing; a loaded session never loses its table, and a loaded table stays well-formed |
| Dashboard.VisualizationCrash | app.py:176-179 | option 3 crashes only on a selection the selector accepted, and then because a selected value column is a text column, on which app.py:86 or app.py:92 fails |
| Dashboard.Run | app.py:153-188 | across any sequence of turns the session's table stays well-formed, and a loaded session stays loaded |
| Dashboard.RunWithoutLoadOrAnalysis | app.py:164-188 | turns without choices 1 and 2 leave the session exactly as it was |
| Dashboard.RunStaysEmpty | app.py:164-168 | without choice 1 an empty session stays empty |
| Dashboard.ExitStops | app.py:183-185 | choice 4 ends the run whatever turns follow |

## Left out

- Loading (app.py:5-16): reading the spreadsheet is foreign file I/O. Its
  retry loop may prompt forever, but when it returns, it returns a table,
  so option 1 takes the loaded table and path as parameters.
- The printed reports (app.py:20-22, 47-59, 66-67, 154-160): output only.
  Of `basic_understanding`, only the `describe()` failure on a table
  without columns and the call to `handle_nulls` are modelled.
- Chart rendering, palettes, the `melt` and `set_index` reshaping, saving
  and showing (app.py:94-146): these are foreign plotting calls. Errors in
  app.py:103-146 are caught by the `try` there and do not touch the
  session. The menu prints, the chart-type prompt and the figure set-up at
  app.py:94-101 come before that `try`; they are assumed not to fail, so
  option 3 on an all-numeric selection always continues.
- Column type inference: the numeric/text tag of each column is given.
- Floating point: cells hold exact reals, so mean, median and sums are
  exact rather than float64.
- Library failures inside the fill call (app.py:43-44) are the `raised`
  parameter of `Fill.HandleNulls`, since the fills themselves are total.
- Interactive input: each answer is a parameter, and the selector's
  answers are a finite list. The program would prompt forever on invalid
  input; `Selector.SelectColumns` returns `None` when the list runs out,
  and `Dashboard.Step` then ends the run with `OutOfInput`.
- Ranking.TopN: does not pin the order among equal totals. pandas keeps the
  first row on a tie, and the selection loop happens to do the same, but the
  contract states only size, distinctness, descending order and dominance.
- pandas 1.x: there `sum(axis=1)` silently drops text columns and option 3
  does not crash on them. The model follows pandas 2.x, under which any
  object-dtype value column gives an object `Total`, which `nlargest`
  rejects.
- Text.ParseInt: accepts ASCII digits only. Python's `int()` also accepts
  other Unicode decimal digits. The digit limit is the default 4300; a limit
  changed through `sys.set_int_max_str_digits` or `PYTHONINTMAXSTRDIGITS`,
  and Python versions without the limit, are not modelled.
- Selector.AcceptId: column labels are modelled as strings. The
  spreadsheet reader gives a numeric header cell a number label (2023, not
  "2023"), which no typed answer equals, so in the program such a column can
  never be selected; the model accepts its text form.
- Column names are taken as distinct: the spreadsheet reader renames
  repeated headers. The identifier column may also appear among the value
  columns, as in the code.
