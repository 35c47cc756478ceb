# file-parser row cleaning, modelled in Dafny

The file-parser scripts turn a pipe-delimited SAP-style report into `;`-separated
rows. This project models the row-cleaning core of both scripts and proves what
it does:

- `format_account` leaves account values of at most 11 characters alone. Longer
  ones go through `int()`, then general (`:G`) notation, and every `.` becomes `,`.
- `format_lc_amnt` deletes the thousands commas. If a `-` is left anywhere, it
  puts a `-` in front and drops the last character.
- `format_rows` in clean_parsing.py works on raw text lines. It strips each line
  and drops decoration lines (page furniture, rulers, empty lines). It also drops
  every later line containing `Stat`. It splits `row[1:-1]` on `|` and trims the
  fields. The header row (a field equal to `Stat`) records the positions of
  `Account` and `LC amnt`; every other row has those two fields rewritten. Each
  kept row is joined with `;` and ends with a newline.
- `format_rows` in clean_parsing_using_pandas.py does the same over rows that are
  already split on `|`. It skips rows with at most three parts, tests `Stat`
  only in `row[1]`, and keeps lists of cells instead of joined strings.
- In both scripts any exception is logged and swallowed, so the whole call
  returns `None`.

Both scripts define the two formatters identically
(clean_parsing_using_pandas.py:10-44 repeats clean_parsing.py:9-41), so one
model serves both.

Modules, one file each:

- `Wrappers` — `Option`.
- `PyStr` — the Python string and list operations the scripts use: `strip`,
  `startswith`, substring `in`, `split`, `join`, `replace`, `list.index`.
- `Formatting` — `int()`, `format_account`, `format_lc_amnt`.
- `Rows` — locating the two columns on a header and rewriting them on a data
  row. Both variants share this.
- `CleanParsing` — `format_rows` of clean_parsing.py.
- `CleanParsingPandas` — `format_rows` of clean_parsing_using_pandas.py.

Each `format_rows` is a `method` with the source's loop and its three variables
(`cleaned_data`, `account_col_index` and `lc_amnt_col_index`). It is proved equal
to a left fold over the input, with one step per iteration (`TextScan`,
`TableScan`). An exception becomes `None` and ends the fold. The fold is then
proved equal to a declarative reference:

- First comes a classifier that selects the kept lines and states nothing
  about columns (`KeptLines`, `KeptRows`).
- Then each kept row is rendered on its own terms (`ExpectedScan`,
  `ExpectedRow`).

The reference lemmas state the promised properties of the output and the exact
conditions under which the result is `None`.

Python's `:G` rendering of an int goes through a float, so it is a caller-given
parameter `render: int -> Option<string>`. `None` stands for the OverflowError
raised when the int is too large for a float.

`format_lc_amnt` deletes the comma before it moves the sign, so `"1.234,56-"`
becomes `"-1.23456"` (`Formatting.LcAmntExample`).

## Model

| member | source | states |
|---|---|---|
| PyStr.StartsWith | clean_parsing.py:60-66 | definition of `str.startswith`; used by `CleanParsing.IsNoise`, whose properties are in `CleanParsing.KeptLinesClean` |
| PyStr.Contains | clean_parsing.py:70 | definition of substring `in`; its properties are `PyStr.ContainsStrip` and `CleanParsing.FieldOccursInRow` |
| PyStr.Join | clean_parsing.py:83 | definition of `sep.join`; its inverse is `PyStr.SplitJoin` |
| PyStr.StripAll | clean_parsing.py:74 | definition of `[r.strip() for r in ...]`: one stripped element per input element |
| PyStr.Strip | clean_parsing.py:57 | the result is a contiguous slice of the input, starting after its leading whitespace |
| PyStr.StripTrims | clean_parsing.py:57 | the result has no leading or trailing whitespace, and everything removed was whitespace |
| PyStr.StripIdempotent | clean_parsing.py:74 | stripping a stripped string changes nothing |
| PyStr.ContainsStrip | clean_parsing.py:70 | a substring of the stripped line is a substring of the raw line |
| PyStr.Split | clean_parsing.py:74 | `split("|")` gives at least one piece, no piece holds `|`, and joining the pieces with `|` restores the string |
| PyStr.SplitJoin | clean_parsing.py:74 | splitting a join of separator-free pieces gives the pieces back |
| PyStr.SplitPieceIn | clean_parsing.py:74 | every piece of a split is a substring of the split string |
| PyStr.ReplaceChar | clean_parsing.py:18 | `replace(".", ",")` changes exactly the `.` characters to `,` and keeps the length |
| PyStr.RemoveChar | clean_parsing.py:34 | `replace(",", "")` leaves no `,`, is no longer, and keeps the count of every other character |
| PyStr.IndexOf | clean_parsing.py:77-78 | `list.index` succeeds exactly when the element is present, and gives its first position |
| PyStr.SubsequenceLength | clean_parsing.py:56-84 | an order-preserving selection is no longer than its source |
| Formatting.IsIntLiteral | clean_parsing.py:18 | definition of what `int()` accepts (optional sign, then digits); used by `Formatting.ParseInt` |
| Formatting.Decimal | clean_parsing.py:18 | definition of `str(n)`; its partner is `Formatting.ParseDecimal` |
| Formatting.ParseInt | clean_parsing.py:18 | `int(value)` succeeds exactly when the stripped value is an optional sign followed by at least one digit; the result is negative exactly for a leading `-` and a nonzero value |
| Formatting.NatDigits | clean_parsing.py:18 | the decimal digits of `n` are digits and have value `n` |
| Formatting.ParseDecimal | clean_parsing.py:18 | `int(str(n)) == n` for every int |
| Formatting.FormatAccount | clean_parsing.py:16-23 | values of length at most 11 are returned unchanged; longer ones give a result exactly when `int()` accepts them and the rendering succeeds, and then the result is the rendering with every `.` replaced by `,` |
| Formatting.FormatAccountRejects | clean_parsing.py:17-23 | a long value that `int()` rejects gives `None` whatever the renderer does |
| Formatting.FormatAccountUndo | clean_parsing.py:18 | swapping `,` back to `.` recovers the rendering when it has no `,` of its own |
| Formatting.FormatLcAmnt | clean_parsing.py:33-38 | the result has no `,` and the length of the comma-free value; without a `-` it is the comma-free value, otherwise it is `-` followed by the comma-free value minus its last character |
| Formatting.RemoveCharAppend | clean_parsing.py:34 | deleting commas distributes over concatenation |
| Formatting.LcAmntTrailingSign | clean_parsing.py:34-36 | an amount with only a trailing `-` gets the sign moved to the front and its commas deleted |
| Formatting.LcAmntDashed | clean_parsing.py:35-36 | a comma-free value with a `-` anywhere becomes `-` plus the value without its last character |
| Formatting.LcAmntStrayDash | clean_parsing.py:35-36 | `"12-34"` becomes `"-12-3"`: a `-` that is not last still costs the last digit |
| Formatting.LcAmntNotIdempotent | clean_parsing.py:35-36 | `"5-"` becomes `"-5"`, and formatting that again gives `"--"` |
| Formatting.RemoveCommaExample | clean_parsing.py:34 | deleting the commas of `"1.234,56"` gives `"1.23456"` |
| Formatting.LcAmntExample | clean_parsing.py:34-36 | `"1.234,56-"` becomes `"-1.23456"` |
| Rows.LocateColumns | clean_parsing.py:76-78 | the header gives columns exactly when it has both `Account` and `LC amnt` fields; they are their first positions, in range, and distinct |
| Rows.Lift | clean_parsing.py:74 | definition of the list `row_data` before any assignment: every field as a present cell |
| Rows.RewriteFields | clean_parsing.py:79-81 | the rewrite succeeds exactly when both indices are in range; the row keeps its field count, the two located cells are the formatter outputs, and every other cell is the input field unchanged |
| Rows.RewriteStored | clean_parsing.py:80-81 | the rewrite is the two in-place assignments, in source order |
| Rows.JoinCells | clean_parsing.py:83 | the join succeeds exactly when no cell is `None` (otherwise TypeError) |
| Rows.JoinLift | clean_parsing.py:83 | joining fields that were never replaced cannot fail |
| Rows.LcAmntKeepsOutSemicolon | clean_parsing.py:34-36 | `format_lc_amnt` introduces no `;` |
| CleanParsing.IsNoise | clean_parsing.py:60-66 | definition of the decoration filter; its property is `CleanParsing.KeptLinesClean` |
| CleanParsing.Dropped | clean_parsing.py:60-71 | definition of both filters on a stripped line; their properties are `CleanParsing.KeptLinesClean` and `CleanParsing.StepKept` |
| CleanParsing.Inner | clean_parsing.py:74 | definition of `row[1:-1]`, empty for lines shorter than two characters |
| CleanParsing.SplitFields | clean_parsing.py:74 | definition of `row_data`; its property is `CleanParsing.FieldOccursInRow` |
| CleanParsing.HeaderLine | clean_parsing.py:83 | definition of the header's output line; its property is `CleanParsing.HeaderLineFields` |
| CleanParsing.KeepRow | clean_parsing.py:76-84 | definition of the header and data branches; its properties are `CleanParsing.HeaderMissing`, `HeaderKept`, `DataBeforeHeader` and `DataKept` |
| CleanParsing.TextStep | clean_parsing.py:57-84 | definition of one loop iteration; its property is `CleanParsing.StepKept` |
| CleanParsing.TextScan | clean_parsing.py:56-84 | definition of the loop as a fold; its properties are `CleanParsing.TextScanStaysFailed`, `TextScanSnoc` and `TextScanIsExpected` |
| CleanParsing.CleanText | clean_parsing.py:51-89 | definition of the return value; its properties are `CleanParsing.TextOutput` and `TextFailure` |
| CleanParsing.KeptLines | clean_parsing.py:56-71 | definition of the lines both filters keep; its properties are `CleanParsing.KeptLinesSubsequence`, `KeptLinesClean` and `OnlyFirstHeader` |
| CleanParsing.FieldRows | clean_parsing.py:74 | definition of the fields of every kept line, one entry per line |
| CleanParsing.DataLines | clean_parsing.py:80-84 | definition of the data lines of all rows, all or nothing; its property is `CleanParsing.DataLinesAll` |
| CleanParsing.ExpectedScan | clean_parsing.py:74-89 | definition of the reference: the first row as header, the rest as data lines; its properties are `CleanParsing.ExpectedOutput` and `ExpectedFailure` |
| CleanParsing.FieldOccursInRow | clean_parsing.py:70-76 | a field of a line is a substring of the line, so a line with a `Stat` field contains `Stat` |
| CleanParsing.DataLine | clean_parsing.py:80-83 | a data line is `None` exactly when an index is out of range or `format_account` gives `None`; otherwise it ends with a newline |
| CleanParsing.DataLineFields | clean_parsing.py:74-83 | splitting a data line back on `;` gives the input fields with only the two located ones formatted, provided no field and no formatted account value holds a `;` |
| CleanParsing.HeaderLineFields | clean_parsing.py:76-83 | the header line ends with a newline, and splitting it back on `;` gives the header fields |
| CleanParsing.TextScanStaysFailed | clean_parsing.py:88-89 | once an iteration raises, the whole call returns `None` |
| CleanParsing.TextScanSnoc | clean_parsing.py:56 | the fold over one more line is one more step |
| CleanParsing.StepKept | clean_parsing.py:57-74 | a line that passes both filters goes on with the fields of its stripped form |
| CleanParsing.HeaderMissing | clean_parsing.py:76-78 | a header without `Account` or `LC amnt` raises |
| CleanParsing.HeaderKept | clean_parsing.py:76-78 | a full header sets two distinct indices and is output as its fields joined by `;` plus a newline |
| CleanParsing.DataBeforeHeader | clean_parsing.py:79-80 | a data line before any header raises |
| CleanParsing.DataKept | clean_parsing.py:79-84 | a data line is rewritten for the current columns, then joined, or raises |
| CleanParsing.FormatRows | clean_parsing.py:44-89 | the loop returns exactly the fold `CleanText` of its input, and no more lines than the input has |
| CleanParsing.DataLinesAll | clean_parsing.py:80-84 | all data lines succeed exactly when each one does, and then they are in order, one per row |
| CleanParsing.ExpectedScanCleaned | clean_parsing.py:70 | the reference has output exactly when something was kept |
| CleanParsing.ExpectedFirst | clean_parsing.py:70-84 | keeping the first line agrees with the reference |
| CleanParsing.ExpectedNext | clean_parsing.py:79-84 | keeping a later line (never a header) agrees with the reference |
| CleanParsing.ExpectedFailed | clean_parsing.py:88-89 | a failed reference stays failed |
| CleanParsing.TextScanIsExpected | clean_parsing.py:56-84 | the fold equals the reference: classify the lines, render the first kept one as the header and the rest as data lines |
| CleanParsing.KeptLinesSubsequence | clean_parsing.py:56-71 | the kept lines are an order-preserving selection of the stripped input, no longer than the input |
| CleanParsing.KeptLinesClean | clean_parsing.py:57-71 | no kept line is empty or starts with `Customer`, `Code`, `Name`, `City`, `---` or `|--`, and no kept line after the first contains `Stat` |
| CleanParsing.OnlyFirstHeader | clean_parsing.py:70-76 | no kept line after the first has a `Stat` field, so only the first kept line can set the indices |
| CleanParsing.ExpectedOutput | clean_parsing.py:74-86 | a successful reference has one newline-ended line per row: the header line of the first row, which has `Stat`, `Account` and `LC amnt`, then each later row's data line for those columns |
| CleanParsing.ExpectedFailure | clean_parsing.py:76-89 | the reference is `None` exactly when the first row lacks `Stat` or one of the two names, or a later row has no data line |
| CleanParsing.TextOutput | clean_parsing.py:56-86 | a successful `format_rows` returns one line per kept line, no more than the input, each ending in a newline: the joined header, then each later kept line's data line |
| CleanParsing.TextFailure | clean_parsing.py:76-89 | `format_rows` returns `None` exactly when a data line precedes the header, the header lacks a name, an index is out of range, or `format_account` gives `None` |
| CleanParsingPandas.Skipped | clean_parsing_using_pandas.py:62-67 | definition of both filters; their properties are `CleanParsingPandas.KeptRowsFiltered` and `StepKept` |
| CleanParsingPandas.RowFields | clean_parsing_using_pandas.py:70 | definition of `row_data`, the stripped inner parts |
| CleanParsingPandas.KeepTableRow | clean_parsing_using_pandas.py:72-79 | definition of the header and data branches; its properties are `CleanParsingPandas.HeaderMissing`, `HeaderKept`, `DataBeforeHeader` and `DataKept` |
| CleanParsingPandas.TableStep | clean_parsing_using_pandas.py:62-79 | definition of one loop iteration; its property is `CleanParsingPandas.StepKept` |
| CleanParsingPandas.TableScan | clean_parsing_using_pandas.py:60-79 | definition of the loop as a fold; its properties are `CleanParsingPandas.TableScanStaysFailed`, `TableScanSnoc` and `TableScanIsExpected` |
| CleanParsingPandas.CleanTable | clean_parsing_using_pandas.py:55-84 | definition of the return value; its properties are `CleanParsingPandas.TableOutput` and `TableFailure` |
| CleanParsingPandas.KeptRows | clean_parsing_using_pandas.py:60-67 | definition of the rows both filters keep; its properties are `CleanParsingPandas.KeptRowsSubsequence`, `KeptRowsFiltered` and `LaterHeaderRelocates` |
| CleanParsingPandas.TableFields | clean_parsing_using_pandas.py:70 | definition of the stripped inner parts of every kept row, one entry per row |
| CleanParsingPandas.GoverningColumns | clean_parsing_using_pandas.py:72-74 | definition of the columns the most recent header sets; its property is `CleanParsingPandas.GoverningSnoc` |
| CleanParsingPandas.ExpectedRow | clean_parsing_using_pandas.py:70-79 | definition of one row's expected cells; its properties are `CleanParsingPandas.ExpectedRowShape` and `ExpectedRowNone` |
| CleanParsingPandas.ExpectedTable | clean_parsing_using_pandas.py:60-81 | definition of the reference table, all rows or nothing; its property is `CleanParsingPandas.ExpectedTableAll` |
| CleanParsingPandas.TableScanStaysFailed | clean_parsing_using_pandas.py:83-84 | once an iteration raises, the whole call returns `None` |
| CleanParsingPandas.TableScanSnoc | clean_parsing_using_pandas.py:60 | the fold over one more row is one more step |
| CleanParsingPandas.StepKept | clean_parsing_using_pandas.py:62-70 | a row of more than three parts whose `row[1]` passes the filter goes on with its stripped inner parts |
| CleanParsingPandas.HeaderMissing | clean_parsing_using_pandas.py:72-74 | a header without `Account` or `LC amnt` raises |
| CleanParsingPandas.HeaderKept | clean_parsing_using_pandas.py:72-74 | a full header sets two distinct indices and is stored unchanged |
| CleanParsingPandas.DataBeforeHeader | clean_parsing_using_pandas.py:75-76 | a data row before any header raises |
| CleanParsingPandas.DataKept | clean_parsing_using_pandas.py:75-79 | a data row is stored with its two located cells rewritten, or raises |
| CleanParsingPandas.FormatRows | clean_parsing_using_pandas.py:47-84 | the loop returns exactly the fold `CleanTable` of its input, and no more rows than the input has |
| CleanParsingPandas.LastHeader | clean_parsing_using_pandas.py:72-74 | definition of the most recent row with a `Stat` field; what it returns has a `Stat` field |
| CleanParsingPandas.LastHeaderIsLast | clean_parsing_using_pandas.py:72-74 | a header is found exactly when some row has a `Stat` field, and the one found is a row with no `Stat` row after it |
| CleanParsingPandas.ExpectedRowPrefix | clean_parsing_using_pandas.py:60-79 | a kept row's cells do not depend on the rows after it |
| CleanParsingPandas.ExpectedTableAll | clean_parsing_using_pandas.py:60-81 | the reference table succeeds exactly when every row has cells, and then holds them in order |
| CleanParsingPandas.GoverningSnoc | clean_parsing_using_pandas.py:72-74 | a header row replaces the governing columns; any other row keeps them |
| CleanParsingPandas.ExpectedStep | clean_parsing_using_pandas.py:70-79 | keeping one more row agrees with the reference |
| CleanParsingPandas.TableScanIsExpected | clean_parsing_using_pandas.py:59-81 | the fold equals the reference: filter the rows, then store each kept row by its own expected cells |
| CleanParsingPandas.KeptRowsSubsequence | clean_parsing_using_pandas.py:60-67 | the kept rows are an order-preserving selection of the input, no longer than the input |
| CleanParsingPandas.KeptRowsFiltered | clean_parsing_using_pandas.py:62-67 | every kept row has more than three parts, and no kept row after the first has `Stat` in `row[1]` |
| CleanParsingPandas.LaterHeaderRelocates | clean_parsing_using_pandas.py:66-74 | a later row with a `Stat` field but no `Stat` in `row[1]` is kept and relocates the columns |
| CleanParsingPandas.ExpectedRowShape | clean_parsing_using_pandas.py:70-79 | a stored row has one cell per field; a header is stored unchanged; a data row has only its two located cells changed (the account cell possibly `None`) |
| CleanParsingPandas.ExpectedRowNone | clean_parsing_using_pandas.py:72-77 | a row has no cells exactly when it is a header without a name, a data row with no header before it, or a data row too short for a located index |
| CleanParsingPandas.ExpectedTableWidths | clean_parsing_using_pandas.py:70-79 | each stored row has two cells fewer than its input row has parts |
| CleanParsingPandas.TableOutput | clean_parsing_using_pandas.py:59-81 | a successful `format_rows` returns one row per kept row, no more than the input, each of length `len(row) - 2` and equal to that row's expected cells |
| CleanParsingPandas.TableFailure | clean_parsing_using_pandas.py:72-84 | `format_rows` returns `None` exactly when some kept row has no expected cells |

## Left out

- `parse_excel_to_csv`, in both scripts, is not modelled: it does file reading
  and writing, plus pandas `read_csv`, `str.split` and `to_csv`. The text
  variant takes the file's lines as a sequence of strings. The pandas variant
  takes the already split rows. So the `~` read delimiter, blank-line skipping
  and the CSV quoting of `to_csv` are outside the model.
- Logging setup and `logger.exception` are not modelled. Only their effect is:
  the function returns `None`.
- `timeit` timing and the `__main__` blocks are not modelled.
- Formatting.FormatAccount: the numeric content of `f"{int(value):G}"` is not
  modelled. Python renders the int as a float in general notation, which is
  floating-point formatting. It is a parameter, and the contract states only
  what follows from the surrounding code.
- Formatting.ParseInt: models an ASCII-only `int()`. Underscore separators,
  non-ASCII digits and the default 4300-digit conversion limit are not modelled.
  A value beyond that limit raises ValueError in Python but parses here.
- PyStr.Strip: strips the ASCII characters that Python treats as whitespace.
  Unicode whitespace such as U+0085 or U+00A0 is kept.
- CleanParsingPandas.FormatRows: every row is a list of strings. An empty
  `data` value reaches the loop as a float NaN rather than a list, and then
  `len(row)` (clean_parsing_using_pandas.py:62) raises TypeError, so the call
  returns `None`; such rows are not modelled.
- CleanParsing.FormatRows: the header branch sets `account_col_index` before it
  looks up `LC amnt`. A failed second lookup aborts the call, so the model sets
  both indices together; no state with only one of them set is observable.
- CleanParsing.FormatRows: on a data line Python formats and assigns
  `row_data[account_col_index]` before it indexes `row_data[lc_amnt_col_index]`
  (clean_parsing.py:80-81). The model checks both indices first. Either
  out-of-range index raises and aborts the call, so the result is the same.
- CleanParsingPandas.FormatRows: `row_data[account_col_index]` is assigned
  before `row_data[lc_amnt_col_index]` is checked. The model checks both indices
  first. Either out-of-range index raises and aborts the call, so the result is
  the same.
