/** `format_rows` of clean_parsing_using_pandas.py: the same cleaning pass
    over rows that the caller has already split on `|`. Rows are kept as
    lists of cells rather than joined, and a formatter result of None is
    stored in its cell instead of failing the call. */
module CleanParsingPandas {
  import opened Wrappers
  import opened PyStr
  import opened Formatting
  import opened Rows

  /** The loop's state: `cleaned_data` and the two column indices. */
  datatype TableState = TableState(cleaned: seq<seq<Cell>>, columns: Option<Columns>)

  /** Rows of at most three parts are dropped, and so is any row whose
      second part contains "Stat" once something has been kept. */
  predicate Skipped(row: seq<string>, anyKept: bool) {
    |row| <= 3 || (anyKept && Contains(row[1], StatMarker))
  }

  /** `[value.strip() for value in row[1:-1]]`. */
  function RowFields(row: seq<string>): seq<string> {
    if |row| < 2 then [] else StripAll(row[1..|row| - 1])
  }

  /** The rest of an iteration, for the fields of a row the filters keep: a
      header (a field equal to "Stat") sets the columns and is stored as it
      is; any other row is stored with its two located fields formatted.
      None where the source raises: a header without both names, a data
      row before any header, or a located index past the end of the row. */
  function KeepTableRow(st: TableState, fields: seq<string>, render: GeneralFormat): Option<TableState> {
    if StatMarker in fields then
      match LocateColumns(fields)
      case None => None
      case Some(c) => Some(TableState(st.cleaned + [Lift(fields)], Some(c)))
    else
      match st.columns
      case None => None
      case Some(c) =>
        match RewriteFields(fields, c, render)
        case None => None
        case Some(cells) => Some(TableState(st.cleaned + [cells], st.columns))
  }

  /** One iteration of the loop on one row. */
  function TableStep(st: TableState, row: seq<string>, render: GeneralFormat): Option<TableState> {
    if Skipped(row, |st.cleaned| != 0) then Some(st) else KeepTableRow(st, RowFields(row), render)
  }

  /** The loop run over `rows`, from no output and no columns. */
  function TableScan(rows: seq<seq<string>>, render: GeneralFormat): Option<TableState>
    decreases |rows|
  {
    if rows == [] then Some(TableState([], None))
    else
      match TableScan(rows[..|rows| - 1], render)
      case None => None
      case Some(st) => TableStep(st, rows[|rows| - 1], render)
  }

  /** What `format_rows(data_list)` returns. */
  function CleanTable(rows: seq<seq<string>>, render: GeneralFormat): Option<seq<seq<Cell>>> {
    match TableScan(rows, render)
    case None => None
    case Some(st) => Some(st.cleaned)
  }

  /** Once an iteration has raised, the call returns None. */
  lemma {:induction false} TableScanStaysFailed(rows: seq<seq<string>>, n: nat, render: GeneralFormat)
    requires n <= |rows|
    requires TableScan(rows[..n], render).None?
    ensures TableScan(rows, render).None?
    decreases |rows| - n
  {
    if n < |rows| {
      var init := rows[..|rows| - 1];
      assert init[..n] == rows[..n];
      TableScanStaysFailed(init, n, render);
    } else {
      assert rows[..n] == rows;
    }
  }

  /** The run over one more row is one more step. */
  lemma TableScanSnoc(rows: seq<seq<string>>, i: nat, render: GeneralFormat)
    requires i < |rows|
    ensures TableScan(rows[..i + 1], render) ==
      match TableScan(rows[..i], render)
      case None => None
      case Some(st) => TableStep(st, rows[i], render)
  {
    assert rows[..i + 1][..i] == rows[..i];
  }

  /** A row past both filters goes on to `KeepTableRow` with its stripped
      inner parts. */
  lemma StepKept(st: TableState, row: seq<string>, render: GeneralFormat)
    requires |row| > 3 && !(|st.cleaned| != 0 && Contains(row[1], StatMarker))
    ensures TableStep(st, row, render) == KeepTableRow(st, StripAll(row[1..|row| - 1]), render)
  {
  }

  /** A kept header lacking one of the two names raises. */
  lemma HeaderMissing(st: TableState, fields: seq<string>, render: GeneralFormat)
    requires StatMarker in fields
    requires AccountName !in fields || LcAmntName !in fields
    ensures KeepTableRow(st, fields, render).None?
  {
  }

  /** A kept header sets the columns and is stored unchanged. */
  lemma HeaderKept(st: TableState, fields: seq<string>, a: Option<nat>, l: Option<nat>, render: GeneralFormat)
    requires StatMarker in fields
    requires a == IndexOf(fields, AccountName) && l == IndexOf(fields, LcAmntName)
    requires a.Some? && l.Some?
    ensures a.value != l.value
    ensures KeepTableRow(st, fields, render) == Some(TableState(st.cleaned + [Lift(fields)], IndexPair(a, l)))
  {
  }

  /** A kept data row before any header raises. */
  lemma DataBeforeHeader(st: TableState, fields: seq<string>, render: GeneralFormat)
    requires StatMarker !in fields && st.columns.None?
    ensures KeepTableRow(st, fields, render).None?
  {
  }

  /** A kept data row for the current columns is stored rewritten, or
      raises where a located index is past its end. */
  lemma DataKept(st: TableState, fields: seq<string>, c: Columns, render: GeneralFormat)
    requires StatMarker !in fields && st.columns == Some(c)
    ensures KeepTableRow(st, fields, render) ==
      match RewriteFields(fields, c, render)
      case None => None
      case Some(cells) => Some(TableState(st.cleaned + [cells], st.columns))
  {
  }

  /** `format_rows(data_list)` of clean_parsing_using_pandas.py. */
  method FormatRows(dataList: seq<seq<string>>, render: GeneralFormat) returns (result: Option<seq<seq<Cell>>>)
    ensures result == CleanTable(dataList, render)
    ensures result.Some? ==> |result.value| <= |dataList|
  {
    var cleaned: seq<seq<Cell>> := [];
    var accountColIndex: Option<nat> := None;
    var lcAmntColIndex: Option<nat> := None;
    for i := 0 to |dataList|
      invariant accountColIndex.Some? <==> lcAmntColIndex.Some?
      invariant accountColIndex.Some? ==> accountColIndex.value != lcAmntColIndex.value
      invariant TableScan(dataList[..i], render) == Some(TableState(cleaned, IndexPair(accountColIndex, lcAmntColIndex)))
    {
      TableScanSnoc(dataList, i, render);
      ghost var st := TableState(cleaned, IndexPair(accountColIndex, lcAmntColIndex));
      var row := dataList[i];
      if |row| <= 3 {
        continue;
      }
      if |cleaned| != 0 && Contains(row[1], StatMarker) {
        continue;
      }
      var fields := StripAll(row[1..|row| - 1]);
      StepKept(st, row, render);
      var rowData := Lift(fields);
      if StatMarker in fields {
        accountColIndex := IndexOf(fields, AccountName);
        if accountColIndex.None? {
          HeaderMissing(st, fields, render);
          TableScanStaysFailed(dataList, i + 1, render);
          return None;
        }
        lcAmntColIndex := IndexOf(fields, LcAmntName);
        if lcAmntColIndex.None? {
          HeaderMissing(st, fields, render);
          TableScanStaysFailed(dataList, i + 1, render);
          return None;
        }
        HeaderKept(st, fields, accountColIndex, lcAmntColIndex, render);
      } else {
        if accountColIndex.None? {
          DataBeforeHeader(st, fields, render);
          TableScanStaysFailed(dataList, i + 1, render);
          return None;
        }
        var a, l := accountColIndex.value, lcAmntColIndex.value;
        DataKept(st, fields, ColumnPair(a, l), render);
        if a >= |rowData| || l >= |rowData| {
          TableScanStaysFailed(dataList, i + 1, render);
          return None;
        }
        rowData := rowData[a := FormatAccount(fields[a], render)];
        rowData := rowData[l := Some(FormatLcAmnt(fields[l]))];
        RewriteStored(fields, ColumnPair(a, l), render);
      }
      cleaned := cleaned + [rowData];
    }
    assert dataList[..|dataList|] == dataList;
    TableOutput(dataList, render);
    result := Some(cleaned);
  }

  /** The filters on their own: the rows the loop keeps, in input order. */
  function KeptRows(rows: seq<seq<string>>): seq<seq<string>>
    decreases |rows|
  {
    if rows == [] then []
    else KeepNextRow(KeptRows(rows[..|rows| - 1]), rows[|rows| - 1])
  }

  function KeepNextRow(kept: seq<seq<string>>, row: seq<string>): seq<seq<string>> {
    if Skipped(row, kept != []) then kept else kept + [row]
  }

  /** The stripped inner fields of each kept row. */
  function TableFields(kept: seq<seq<string>>): (r: seq<seq<string>>)
    ensures |r| == |kept|
    ensures forall k :: 0 <= k < |kept| ==> r[k] == RowFields(kept[k])
  {
    seq(|kept|, k requires 0 <= k < |kept| => RowFields(kept[k]))
  }

  lemma TableFieldsSnoc(kept: seq<seq<string>>, row: seq<string>)
    ensures TableFields(kept + [row]) == TableFields(kept) + [RowFields(row)]
  {
    var a, b := TableFields(kept + [row]), TableFields(kept) + [RowFields(row)];
    assert |a| == |b|;
    forall k | 0 <= k < |a|
      ensures a[k] == b[k]
    {
      if k < |kept| {
        assert (kept + [row])[k] == kept[k];
      }
    }
  }

  /** The most recent header among `rows`: unlike the text variant, a later
      row whose second part does not contain "Stat" can still have a field
      equal to "Stat", and it then relocates the columns. */
  function LastHeader(rows: seq<seq<string>>): (r: Option<seq<string>>)
    ensures r.Some? ==> StatMarker in r.value
    decreases |rows|
  {
    if rows == [] then None
    else if StatMarker in rows[|rows| - 1] then Some(rows[|rows| - 1])
    else LastHeader(rows[..|rows| - 1])
  }

  /** `LastHeader` finds a header exactly when some row has a "Stat" field,
      and what it finds is a row with no header after it. */
  lemma {:induction false} LastHeaderIsLast(rows: seq<seq<string>>)
    ensures LastHeader(rows).None? <==> forall k :: 0 <= k < |rows| ==> StatMarker !in rows[k]
    ensures LastHeader(rows).Some? ==>
      exists k :: 0 <= k < |rows| && rows[k] == LastHeader(rows).value
        && forall j :: k < j < |rows| ==> StatMarker !in rows[j]
    decreases |rows|
  {
    if rows != [] {
      var n := |rows| - 1;
      var init := rows[..n];
      LastHeaderIsLast(init);
      assert forall k :: 0 <= k < n ==> init[k] == rows[k];
      if StatMarker !in rows[n] && LastHeader(init).Some? {
        var k :| 0 <= k < n && init[k] == LastHeader(init).value
          && forall j :: k < j < n ==> StatMarker !in init[j];
        assert rows[k] == LastHeader(rows).value;
      }
    }
  }

  /** The columns the most recent header locates, if any. */
  function GoverningColumns(rows: seq<seq<string>>): Option<Columns> {
    match LastHeader(rows)
    case None => None
    case Some(h) => LocateColumns(h)
  }

  /** The cells stored for the `k`-th kept row, judged on its own and on the
      headers before it: a header is stored unchanged if it names both
      columns, and a data row is rewritten for the columns of the most
      recent header before it. */
  function ExpectedRow(rows: seq<seq<string>>, k: nat, render: GeneralFormat): Option<seq<Cell>>
    requires k < |rows|
  {
    if StatMarker in rows[k] then
      if LocateColumns(rows[k]).Some? then Some(Lift(rows[k])) else None
    else
      match GoverningColumns(rows[..k])
      case None => None
      case Some(c) => RewriteFields(rows[k], c, render)
  }

  /** All rows' expected cells, or None if any row has none. */
  function ExpectedTable(rows: seq<seq<string>>, render: GeneralFormat): Option<seq<seq<Cell>>>
    decreases |rows|
  {
    if rows == [] then Some([])
    else
      match ExpectedTable(rows[..|rows| - 1], render)
      case None => None
      case Some(out) =>
        match ExpectedRow(rows, |rows| - 1, render)
        case None => None
        case Some(cells) => Some(out + [cells])
  }

  /** A row's expected cells do not depend on the rows after it. */
  lemma ExpectedRowPrefix(rows: seq<seq<string>>, n: nat, k: nat, render: GeneralFormat)
    requires k < n <= |rows|
    ensures ExpectedRow(rows[..n], k, render) == ExpectedRow(rows, k, render)
  {
    assert rows[..n][k] == rows[k];
    assert rows[..n][..k] == rows[..k];
  }

  /** `ExpectedTable` succeeds exactly when every row has expected cells,
      and then holds them in order. */
  lemma {:induction false} ExpectedTableAll(rows: seq<seq<string>>, render: GeneralFormat)
    ensures ExpectedTable(rows, render).Some? <==>
      forall k :: 0 <= k < |rows| ==> ExpectedRow(rows, k, render).Some?
    ensures ExpectedTable(rows, render).Some? ==>
      && |ExpectedTable(rows, render).value| == |rows|
      && forall k :: 0 <= k < |rows| ==> ExpectedRow(rows, k, render) == Some(ExpectedTable(rows, render).value[k])
    decreases |rows|
  {
    if rows != [] {
      var n := |rows|;
      var init := rows[..n - 1];
      ExpectedTableAll(init, render);
      var last := ExpectedRow(rows, n - 1, render);
      match ExpectedTable(init, render)
      case None =>
        var j :| 0 <= j < |init| && ExpectedRow(init, j, render).None?;
        ExpectedRowPrefix(rows, n - 1, j, render);
      case Some(out) =>
        if last.Some? {
          var all := out + [last.value];
          assert ExpectedTable(rows, render) == Some(all);
          forall k | 0 <= k < n
            ensures ExpectedRow(rows, k, render) == Some(all[k])
          {
            if k < n - 1 {
              ExpectedRowPrefix(rows, n - 1, k, render);
              SnocIndex(out, last.value, k);
            }
          }
        }
    }
  }

  /** The expected state after the kept rows `rows`. */
  function ExpectedState(rows: seq<seq<string>>, render: GeneralFormat): Option<TableState> {
    match ExpectedTable(rows, render)
    case None => None
    case Some(out) => Some(TableState(out, GoverningColumns(rows)))
  }

  /** The most recent header after one more row. */
  lemma GoverningSnoc(rows: seq<seq<string>>, fields: seq<string>)
    ensures GoverningColumns(rows + [fields]) ==
      if StatMarker in fields then LocateColumns(fields) else GoverningColumns(rows)
  {
    assert (rows + [fields])[..|rows|] == rows;
  }

  /** One kept row more, against the expected state. */
  lemma ExpectedStep(rows: seq<seq<string>>, fields: seq<string>, render: GeneralFormat)
    requires ExpectedState(rows, render).Some?
    ensures KeepTableRow(ExpectedState(rows, render).value, fields, render) == ExpectedState(rows + [fields], render)
  {
    var ext := rows + [fields];
    var out := ExpectedTable(rows, render).value;
    var st := ExpectedState(rows, render).value;
    GoverningSnoc(rows, fields);
    assert ext[..|rows|] == rows && ext[|rows|] == fields;
    var r := KeepTableRow(st, fields, render);
    var e := ExpectedState(ext, render);
    match ExpectedRow(ext, |rows|, render)
    case None =>
      assert r.None? && e.None?;
    case Some(cells) =>
      assert ExpectedTable(ext, render) == Some(out + [cells]);
      assert r.Some? && e.Some?;
      assert r.value.cleaned == e.value.cleaned;
      assert r.value.columns == e.value.columns;
  }

  /** The loop equals the declarative description: filter, then store every
      kept row by its own expected cells. */
  lemma {:induction false} TableScanIsExpected(lines: seq<seq<string>>, render: GeneralFormat)
    ensures TableScan(lines, render) == ExpectedState(TableFields(KeptRows(lines)), render)
    decreases |lines|
  {
    if lines != [] {
      var init := lines[..|lines| - 1];
      var row := lines[|lines| - 1];
      TableScanIsExpected(init, render);
      var prev := KeptRows(init);
      var pf := TableFields(prev);
      if !Skipped(row, prev != []) {
        TableFieldsSnoc(prev, row);
        if ExpectedState(pf, render).Some? {
          assert |ExpectedState(pf, render).value.cleaned| == |pf| by {
            ExpectedTableAll(pf, render);
          }
          ExpectedStep(pf, RowFields(row), render);
        } else {
          assert (pf + [RowFields(row)])[..|pf|] == pf;
        }
      } else if ExpectedState(pf, render).Some? {
        ExpectedTableAll(pf, render);
      }
    }
  }

  /** The filters keep an order-preserving selection of the input rows, no
      longer than the input. */
  lemma {:induction false} KeptRowsSubsequence(rows: seq<seq<string>>)
    ensures |KeptRows(rows)| <= |rows|
    ensures IsSubsequence(KeptRows(rows), rows)
    decreases |rows|
  {
    if rows != [] {
      var init := rows[..|rows| - 1];
      var row := rows[|rows| - 1];
      KeptRowsSubsequence(init);
      SnocSplit(rows);
      SubsequenceSnoc(KeptRows(init), init, row);
      SubsequenceLength(KeptRows(rows), rows);
    }
  }

  /** Every kept row has more than three parts, and no kept row after the
      first has "Stat" in its second part. */
  lemma {:induction false} KeptRowsFiltered(rows: seq<seq<string>>)
    ensures forall k :: 0 <= k < |KeptRows(rows)| ==> |KeptRows(rows)[k]| > 3
    ensures forall k :: 1 <= k < |KeptRows(rows)| ==> !Contains(KeptRows(rows)[k][1], StatMarker)
    decreases |rows|
  {
    if rows != [] {
      var init := rows[..|rows| - 1];
      KeptRowsFiltered(init);
      var prev := KeptRows(init);
      var kept := KeptRows(rows);
      if kept != prev {
        assert forall k :: 0 <= k < |prev| ==> kept[k] == prev[k];
      }
    }
  }

  /** Unlike the text variant, a later header is kept whenever its second
      part does not contain "Stat" (for instance when "Stat" is a later
      field), and it then relocates the columns for every row after it. */
  lemma LaterHeaderRelocates(prev: seq<seq<string>>, row: seq<string>)
    requires KeptRows(prev) != []
    requires |row| > 3 && !Contains(row[1], StatMarker)
    requires StatMarker in RowFields(row)
    ensures KeptRows(prev + [row]) == KeptRows(prev) + [row]
    ensures GoverningColumns(TableFields(KeptRows(prev + [row]))) == LocateColumns(RowFields(row))
  {
    var all := prev + [row];
    assert all[..|all| - 1] == prev;
    TableFieldsSnoc(KeptRows(prev), row);
    GoverningSnoc(TableFields(KeptRows(prev)), RowFields(row));
  }

  /** The expected cells of a row have one cell per field: a header's are
      its fields, a data row's are its fields with the two located ones
      formatted (the account cell possibly None). */
  lemma ExpectedRowShape(rows: seq<seq<string>>, k: nat, render: GeneralFormat)
    requires k < |rows| && ExpectedRow(rows, k, render).Some?
    ensures var cells := ExpectedRow(rows, k, render).value;
      && |cells| == |rows[k]|
      && (StatMarker in rows[k] ==> cells == Lift(rows[k]))
      && (StatMarker !in rows[k] ==>
            var c := GoverningColumns(rows[..k]).value;
            && cells[c.account] == FormatAccount(rows[k][c.account], render)
            && cells[c.lcAmnt] == Some(FormatLcAmnt(rows[k][c.lcAmnt]))
            && forall j :: 0 <= j < |cells| && j != c.account && j != c.lcAmnt ==> cells[j] == Some(rows[k][j]))
  {
  }

  /** A row has no expected cells exactly when it is a header without one of
      the two names, a data row with no header before it, or a data row too
      short for a located index. */
  lemma ExpectedRowNone(rows: seq<seq<string>>, k: nat, render: GeneralFormat)
    requires k < |rows|
    ensures ExpectedRow(rows, k, render).None? <==>
      if StatMarker in rows[k] then AccountName !in rows[k] || LcAmntName !in rows[k]
      else
        || GoverningColumns(rows[..k]).None?
        || GoverningColumns(rows[..k]).value.account >= |rows[k]|
        || GoverningColumns(rows[..k]).value.lcAmnt >= |rows[k]|
  {
  }

  /** Each stored row of a successful expected table has two cells fewer
      than the kept row has parts. */
  lemma ExpectedTableWidths(kept: seq<seq<string>>, render: GeneralFormat)
    requires forall k :: 0 <= k < |kept| ==> |kept[k]| > 3
    requires ExpectedTable(TableFields(kept), render).Some?
    ensures |ExpectedTable(TableFields(kept), render).value| == |kept|
    ensures var out := ExpectedTable(TableFields(kept), render).value;
      forall k :: 0 <= k < |kept| ==> |out[k]| == |kept[k]| - 2
  {
    var rows := TableFields(kept);
    ExpectedTableAll(rows, render);
    var out := ExpectedTable(rows, render).value;
    forall k | 0 <= k < |kept|
      ensures |out[k]| == |kept[k]| - 2
    {
      ExpectedRowShape(rows, k, render);
      assert rows[k] == RowFields(kept[k]);
    }
  }

  /** What a successful `format_rows` returns: one list of cells per kept
      row, of length `len(row) - 2`, each the row's expected cells. */
  lemma TableOutput(lines: seq<seq<string>>, render: GeneralFormat)
    requires CleanTable(lines, render).Some?
    ensures var out := CleanTable(lines, render).value;
      var kept := KeptRows(lines);
      var rows := TableFields(kept);
      && |out| == |kept| <= |lines|
      && forall k :: 0 <= k < |out| ==>
           && |out[k]| == |kept[k]| - 2
           && ExpectedRow(rows, k, render) == Some(out[k])
  {
    TableScanIsExpected(lines, render);
    KeptRowsSubsequence(lines);
    KeptRowsFiltered(lines);
    var kept := KeptRows(lines);
    var rows := TableFields(kept);
    ExpectedTableAll(rows, render);
    ExpectedTableWidths(kept, render);
  }

  /** When `format_rows` returns None: exactly when some kept row has no
      expected cells. */
  lemma TableFailure(lines: seq<seq<string>>, render: GeneralFormat)
    ensures var rows := TableFields(KeptRows(lines));
      CleanTable(lines, render).None? <==>
        exists k :: 0 <= k < |rows| && ExpectedRow(rows, k, render).None?
  {
    TableScanIsExpected(lines, render);
    ExpectedTableAll(TableFields(KeptRows(lines)), render);
  }
}
