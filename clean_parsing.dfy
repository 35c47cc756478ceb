/** `format_rows` of clean_parsing.py: one pass over the raw lines of the
    report that drops decoration, keeps the first header and turns every
    later kept line into a `;`-joined row with the two special columns
    rewritten. */
module CleanParsing {
  import opened Wrappers
  import opened PyStr
  import opened Formatting
  import opened Rows

  /** Decoration lines, judged after stripping: empty, or starting with one
      of the literal prefixes of the report's page furniture. */
  predicate IsNoise(row: string) {
    || StartsWith(row, "Customer")
    || StartsWith(row, "Code")
    || StartsWith(row, "Name")
    || StartsWith(row, "City")
    || row == ""
    || StartsWith(row, "---")
    || StartsWith(row, "|--")
  }

  /** `row[1:-1]`: the line without its outer delimiters. */
  function Inner(row: string): string {
    if |row| < 2 then "" else row[1..|row| - 1]
  }

  /** `[r.strip() for r in row[1:-1].split("|")]`. */
  function SplitFields(row: string): seq<string> {
    StripAll(Split(Inner(row), '|'))
  }

  /** A field of a line is a substring of the line; in particular a line
      with a field equal to "Stat" contains "Stat". */
  lemma FieldOccursInRow(row: string, t: string)
    requires t in SplitFields(row)
    ensures Contains(row, t)
  {
    var parts := Split(Inner(row), '|');
    var k :| 0 <= k < |parts| && SplitFields(row)[k] == t;
    ContainsSelf(t);
    ContainsStrip(parts[k], t);
    SplitPieceIn(Inner(row), '|', k);
    ContainsTrans(Inner(row), parts[k], t);
    if |row| < 2 {
      assert row[0..0] == Inner(row);
    } else {
      ContainsSlice(row, 1, |row| - 1, t);
    }
  }

  predicate EndsWithNewline(s: string) {
    |s| > 0 && s[|s| - 1] == '\n'
  }

  /** The output line of the header row. */
  function HeaderLine(fields: seq<string>): string {
    Join(fields, ";") + "\n"
  }

  /** The output line of a data row: the rewritten fields joined by `;`.
      None where an index is out of range, or where `format_account` gave
      None and the join raised TypeError. */
  function DataLine(fields: seq<string>, c: Columns, render: GeneralFormat): (r: Option<string>)
    ensures r.None? <==>
      || c.account >= |fields| || c.lcAmnt >= |fields|
      || FormatAccount(fields[c.account], render).None?
    ensures r.Some? ==> EndsWithNewline(r.value)
  {
    match RewriteFields(fields, c, render)
    case None => None
    case Some(cells) =>
      match JoinCells(cells, ";")
      case None => None
      case Some(s) => Some(s + "\n")
  }

  /** Splitting a data line back on `;` gives the input fields, with the two
      located ones formatted, provided no field or formatted value holds a
      `;` of its own. */
  lemma DataLineFields(fields: seq<string>, c: Columns, render: GeneralFormat)
    requires DataLine(fields, c, render).Some?
    requires forall k :: 0 <= k < |fields| ==> ';' !in fields[k]
    requires ';' !in FormatAccount(fields[c.account], render).value
    ensures var s := DataLine(fields, c, render).value;
      var parts := Split(s[..|s| - 1], ';');
      && |parts| == |fields|
      && parts[c.account] == FormatAccount(fields[c.account], render).value
      && parts[c.lcAmnt] == FormatLcAmnt(fields[c.lcAmnt])
      && forall k :: 0 <= k < |fields| && k != c.account && k != c.lcAmnt ==> parts[k] == fields[k]
  {
    var cells := RewriteFields(fields, c, render).value;
    var vals := Values(cells);
    var s := DataLine(fields, c, render).value;
    assert s == Join(vals, ";") + "\n";
    assert s[..|s| - 1] == Join(vals, ";");
    LcAmntKeepsOutSemicolon(fields[c.lcAmnt]);
    assert forall k :: 0 <= k < |vals| ==> ';' !in vals[k];
    SplitJoin(vals, ';');
  }

  /** Splitting the header line back on `;` gives the header fields, provided
      none holds a `;`. */
  lemma HeaderLineFields(fields: seq<string>)
    requires |fields| >= 1
    requires forall k :: 0 <= k < |fields| ==> ';' !in fields[k]
    ensures EndsWithNewline(HeaderLine(fields))
    ensures Split(HeaderLine(fields)[..|HeaderLine(fields)| - 1], ';') == fields
  {
    var s := HeaderLine(fields);
    assert s[..|s| - 1] == Join(fields, ";");
    SplitJoin(fields, ';');
  }

  /** The loop's state: `cleaned_data` and the two column indices. */
  datatype TextState = TextState(cleaned: seq<string>, columns: Option<Columns>)

  /** The classifier's verdict on a stripped line: decoration is dropped,
      and so is any line containing "Stat" once something has been kept. */
  predicate Dropped(row: string, anyKept: bool) {
    IsNoise(row) || (anyKept && Contains(row, StatMarker))
  }

  /** The rest of an iteration, for the fields of a line the classifier
      keeps: a header (a field equal to "Stat") sets the columns, any other
      line is a data line for the columns already set. None where the
      source raises: a header without both names, a data line before any
      header, or a data line that `DataLine` rejects. */
  function KeepRow(st: TextState, fields: seq<string>, render: GeneralFormat): Option<TextState> {
    if StatMarker in fields then
      match LocateColumns(fields)
      case None => None
      case Some(c) => Some(TextState(st.cleaned + [HeaderLine(fields)], Some(c)))
    else
      match st.columns
      case None => None
      case Some(c) =>
        match DataLine(fields, c, render)
        case None => None
        case Some(s) => Some(TextState(st.cleaned + [s], st.columns))
  }

  /** One iteration of the loop on one raw line; None where the iteration
      raises (the whole call then returns None). */
  function TextStep(st: TextState, line: string, render: GeneralFormat): Option<TextState> {
    var row := Strip(line);
    if Dropped(row, |st.cleaned| != 0) then Some(st) else KeepRow(st, SplitFields(row), render)
  }

  /** The loop run over `lines`, from no output and no columns. */
  function TextScan(lines: seq<string>, render: GeneralFormat): Option<TextState>
    decreases |lines|
  {
    if lines == [] then Some(TextState([], None))
    else
      match TextScan(lines[..|lines| - 1], render)
      case None => None
      case Some(st) => TextStep(st, lines[|lines| - 1], render)
  }

  /** What `format_rows(file_data)` returns. */
  function CleanText(lines: seq<string>, render: GeneralFormat): Option<seq<string>> {
    match TextScan(lines, render)
    case None => None
    case Some(st) => Some(st.cleaned)
  }

  /** Once an iteration has raised, the call returns None. */
  lemma {:induction false} TextScanStaysFailed(lines: seq<string>, n: nat, render: GeneralFormat)
    requires n <= |lines|
    requires TextScan(lines[..n], render).None?
    ensures TextScan(lines, render).None?
    decreases |lines| - n
  {
    if n < |lines| {
      var init := lines[..|lines| - 1];
      assert init[..n] == lines[..n];
      TextScanStaysFailed(init, n, render);
    } else {
      assert lines[..n] == lines;
    }
  }

  /** The run over one more line is one more step. */
  lemma TextScanSnoc(lines: seq<string>, i: nat, render: GeneralFormat)
    requires i < |lines|
    ensures TextScan(lines[..i + 1], render) ==
      match TextScan(lines[..i], render)
      case None => None
      case Some(st) => TextStep(st, lines[i], render)
  {
    assert lines[..i + 1][..i] == lines[..i];
  }

  /** A line past both filters goes on to `KeepRow` with the fields of its
      stripped form. */
  lemma StepKept(st: TextState, line: string, render: GeneralFormat)
    requires !Dropped(Strip(line), |st.cleaned| != 0)
    ensures TextStep(st, line, render) == KeepRow(st, SplitFields(Strip(line)), render)
  {
  }

  /** A kept line with a "Stat" field lacking one of the two names raises. */
  lemma HeaderMissing(st: TextState, fields: seq<string>, render: GeneralFormat)
    requires StatMarker in fields
    requires AccountName !in fields || LcAmntName !in fields
    ensures KeepRow(st, fields, render).None?
  {
  }

  /** A kept header line sets the columns and is output joined. */
  lemma HeaderKept(st: TextState, fields: seq<string>, a: Option<nat>, l: Option<nat>, render: GeneralFormat)
    requires StatMarker in fields
    requires a == IndexOf(fields, AccountName) && l == IndexOf(fields, LcAmntName)
    requires a.Some? && l.Some?
    ensures a.value != l.value
    ensures JoinCells(Lift(fields), ";") == Some(Join(fields, ";"))
    ensures KeepRow(st, fields, render) == Some(TextState(st.cleaned + [HeaderLine(fields)], IndexPair(a, l)))
  {
    JoinLift(fields, ";");
  }

  /** A kept data line before any header raises. */
  lemma DataBeforeHeader(st: TextState, fields: seq<string>, render: GeneralFormat)
    requires StatMarker !in fields && st.columns.None?
    ensures KeepRow(st, fields, render).None?
  {
  }

  /** A kept data line for the current columns: None exactly when its
      rewritten cells do not exist or do not join, otherwise it is output. */
  lemma DataKept(st: TextState, fields: seq<string>, c: Columns, render: GeneralFormat)
    requires StatMarker !in fields && st.columns == Some(c)
    ensures KeepRow(st, fields, render) ==
      match RewriteFields(fields, c, render)
      case None => None
      case Some(cells) =>
        match JoinCells(cells, ";")
        case None => None
        case Some(s) => Some(TextState(st.cleaned + [s + "\n"], st.columns))
  {
  }

  /** `format_rows(file_data)` of clean_parsing.py. */
  method FormatRows(fileData: seq<string>, render: GeneralFormat) returns (result: Option<seq<string>>)
    ensures result == CleanText(fileData, render)
    ensures result.Some? ==> |result.value| <= |fileData|
  {
    var cleaned: seq<string> := [];
    var accountColIndex: Option<nat> := None;
    var lcAmntColIndex: Option<nat> := None;
    for i := 0 to |fileData|
      invariant accountColIndex.Some? <==> lcAmntColIndex.Some?
      invariant accountColIndex.Some? ==> accountColIndex.value != lcAmntColIndex.value
      invariant TextScan(fileData[..i], render) == Some(TextState(cleaned, IndexPair(accountColIndex, lcAmntColIndex)))
    {
      TextScanSnoc(fileData, i, render);
      ghost var st := TextState(cleaned, IndexPair(accountColIndex, lcAmntColIndex));
      var row := Strip(fileData[i]);
      if IsNoise(row) {
        assert Dropped(row, |cleaned| != 0);
        continue;
      }
      if |cleaned| != 0 && Contains(row, StatMarker) {
        assert Dropped(row, |cleaned| != 0);
        continue;
      }
      var rowData := SplitFields(row);
      StepKept(st, fileData[i], render);
      var cells := Lift(rowData);
      if StatMarker in rowData {
        accountColIndex := IndexOf(rowData, AccountName);
        if accountColIndex.None? {
          HeaderMissing(st, rowData, render);
          TextScanStaysFailed(fileData, i + 1, render);
          return None;
        }
        lcAmntColIndex := IndexOf(rowData, LcAmntName);
        if lcAmntColIndex.None? {
          HeaderMissing(st, rowData, render);
          TextScanStaysFailed(fileData, i + 1, render);
          return None;
        }
        HeaderKept(st, rowData, accountColIndex, lcAmntColIndex, render);
      } else {
        if accountColIndex.None? {
          DataBeforeHeader(st, rowData, render);
          TextScanStaysFailed(fileData, i + 1, render);
          return None;
        }
        var a, l := accountColIndex.value, lcAmntColIndex.value;
        DataKept(st, rowData, ColumnPair(a, l), render);
        if a >= |rowData| || l >= |rowData| {
          TextScanStaysFailed(fileData, i + 1, render);
          return None;
        }
        cells := cells[a := FormatAccount(rowData[a], render)];
        cells := cells[l := Some(FormatLcAmnt(rowData[l]))];
        RewriteStored(rowData, ColumnPair(a, l), render);
      }
      var joined := JoinCells(cells, ";");
      if joined.None? {
        TextScanStaysFailed(fileData, i + 1, render);
        return None;
      }
      cleaned := cleaned + [joined.value + "\n"];
    }
    assert fileData[..|fileData|] == fileData;
    TextOutput(fileData, render);
    result := Some(cleaned);
  }

  /** The classifier on its own: the stripped lines the loop keeps, in input
      order. */
  function KeptLines(lines: seq<string>): seq<string>
    decreases |lines|
  {
    if lines == [] then []
    else KeepNext(KeptLines(lines[..|lines| - 1]), Strip(lines[|lines| - 1]))
  }

  /** The kept lines after one more stripped line. */
  function KeepNext(kept: seq<string>, row: string): seq<string> {
    if Dropped(row, kept != []) then kept else kept + [row]
  }

  /** The fields of each kept line. */
  function FieldRows(kept: seq<string>): (r: seq<seq<string>>)
    ensures |r| == |kept|
    ensures forall k :: 0 <= k < |kept| ==> r[k] == SplitFields(kept[k])
  {
    seq(|kept|, k requires 0 <= k < |kept| => SplitFields(kept[k]))
  }

  lemma FieldRowsSnoc(kept: seq<string>, row: string)
    ensures FieldRows(kept + [row]) == FieldRows(kept) + [SplitFields(row)]
  {
    var a, b := FieldRows(kept + [row]), FieldRows(kept) + [SplitFields(row)];
    assert |a| == |b|;
    forall k | 0 <= k < |a|
      ensures a[k] == b[k]
    {
      if k < |kept| {
        assert (kept + [row])[k] == kept[k];
      }
    }
  }

  /** The data lines of `rows`, all or nothing. */
  function DataLines(rows: seq<seq<string>>, c: Columns, render: GeneralFormat): Option<seq<string>>
    decreases |rows|
  {
    if rows == [] then Some([])
    else
      match DataLines(rows[..|rows| - 1], c, render)
      case None => None
      case Some(out) =>
        match DataLine(rows[|rows| - 1], c, render)
        case None => None
        case Some(s) => Some(out + [s])
  }

  /** `DataLines` succeeds exactly when every row's data line does, and then
      holds them in order. */
  lemma {:induction false} DataLinesAll(rows: seq<seq<string>>, c: Columns, render: GeneralFormat)
    ensures DataLines(rows, c, render).Some? <==>
      forall k :: 0 <= k < |rows| ==> DataLine(rows[k], c, render).Some?
    ensures DataLines(rows, c, render).Some? ==>
      && |DataLines(rows, c, render).value| == |rows|
      && forall k :: 0 <= k < |rows| ==> DataLine(rows[k], c, render) == Some(DataLines(rows, c, render).value[k])
    decreases |rows|
  {
    if rows != [] {
      var n := |rows|;
      var init := rows[..n - 1];
      DataLinesAll(init, c, render);
      var last := DataLine(rows[n - 1], c, render);
      match DataLines(init, c, render)
      case None =>
        var j :| 0 <= j < |init| && DataLine(init[j], c, render).None?;
        PrefixIndex(rows, n - 1, j);
      case Some(out) =>
        if last.Some? {
          var all := out + [last.value];
          assert DataLines(rows, c, render) == Some(all);
          forall k | 0 <= k < n
            ensures DataLine(rows[k], c, render) == Some(all[k])
          {
            if k < n - 1 {
              PrefixIndex(rows, n - 1, k);
              SnocIndex(out, last.value, k);
            }
          }
        }
    }
  }

  /** The expected state after the whole input, computed from the fields of
      the kept lines alone: the first must be a header naming both columns,
      and every later one becomes a data line for those columns. */
  function ExpectedScan(rows: seq<seq<string>>, render: GeneralFormat): Option<TextState> {
    if rows == [] then Some(TextState([], None))
    else if StatMarker !in rows[0] then None
    else
      match LocateColumns(rows[0])
      case None => None
      case Some(c) =>
        match DataLines(rows[1..], c, render)
        case None => None
        case Some(out) => Some(TextState([HeaderLine(rows[0])] + out, Some(c)))
  }

  /** The expected state has output exactly when something was kept. */
  lemma ExpectedScanCleaned(rows: seq<seq<string>>, render: GeneralFormat)
    requires ExpectedScan(rows, render).Some?
    ensures |ExpectedScan(rows, render).value.cleaned| != 0 <==> rows != []
  {
  }

  /** Keeping the first line. */
  lemma ExpectedFirst(fields: seq<string>, render: GeneralFormat)
    ensures KeepRow(TextState([], None), fields, render) == ExpectedScan([fields], render)
  {
    var r := KeepRow(TextState([], None), fields, render);
    var e := ExpectedScan([fields], render);
    assert [fields][0] == fields;
    if StatMarker in fields && LocateColumns(fields).Some? {
      assert [fields][1..] == [];
      assert DataLines([], LocateColumns(fields).value, render) == Some([]);
      assert r.Some? && e.Some?;
      assert r.value.columns == e.value.columns == LocateColumns(fields);
      assert r.value.cleaned == e.value.cleaned == [HeaderLine(fields)];
    } else {
      assert r.None? && e.None?;
    }
  }

  /** `DataLines` over one more row. */
  lemma DataLinesSnoc(rows: seq<seq<string>>, fields: seq<string>, c: Columns, render: GeneralFormat)
    ensures DataLines(rows + [fields], c, render) ==
      match DataLines(rows, c, render)
      case None => None
      case Some(out) =>
        match DataLine(fields, c, render)
        case None => None
        case Some(s) => Some(out + [s])
  {
    assert (rows + [fields])[..|rows|] == rows;
  }

  /** The expected state over one more kept row, once there is a first. */
  lemma ExpectedSnoc(prev: seq<seq<string>>, fields: seq<string>, render: GeneralFormat)
    requires prev != []
    ensures ExpectedScan(prev + [fields], render) ==
      if StatMarker !in prev[0] || LocateColumns(prev[0]).None? then None
      else
        var c := LocateColumns(prev[0]).value;
        match DataLines(prev[1..] + [fields], c, render)
        case None => None
        case Some(out) => Some(TextState([HeaderLine(prev[0])] + out, Some(c)))
  {
    var rows := prev + [fields];
    assert rows[0] == prev[0];
    assert rows[1..] == prev[1..] + [fields];
  }

  /** Keeping a later line without a "Stat" field: it is a data line. */
  lemma ExpectedNext(prev: seq<seq<string>>, fields: seq<string>, render: GeneralFormat)
    requires prev != [] && ExpectedScan(prev, render).Some?
    requires StatMarker !in fields
    ensures KeepRow(ExpectedScan(prev, render).value, fields, render) == ExpectedScan(prev + [fields], render)
  {
    var c := LocateColumns(prev[0]).value;
    var st := ExpectedScan(prev, render).value;
    var out := DataLines(prev[1..], c, render).value;
    ExpectedSnoc(prev, fields, render);
    DataLinesSnoc(prev[1..], fields, c, render);
    var r := KeepRow(st, fields, render);
    var e := ExpectedScan(prev + [fields], render);
    assert st.columns == Some(c) && st.cleaned == [HeaderLine(prev[0])] + out;
    match DataLine(fields, c, render)
    case None =>
      assert r.None? && e.None?;
    case Some(line) =>
      AppendAssoc([HeaderLine(prev[0])], out, [line]);
      assert r == Some(TextState(st.cleaned + [line], Some(c)));
      assert e == Some(TextState([HeaderLine(prev[0])] + (out + [line]), Some(c)));
  }

  /** A failure stays a failure when a later line is kept. */
  lemma ExpectedFailed(prev: seq<seq<string>>, fields: seq<string>, render: GeneralFormat)
    requires prev != [] && ExpectedScan(prev, render).None?
    ensures ExpectedScan(prev + [fields], render).None?
  {
    var rows := prev + [fields];
    assert rows[0] == prev[0];
    assert rows[1..] == prev[1..] + [fields];
    assert (prev[1..] + [fields])[..|prev| - 1] == prev[1..];
  }

  /** The loop equals the declarative description: classify, then render the
      first kept line as the header and the rest as data lines. */
  lemma {:induction false} TextScanIsExpected(lines: seq<string>, render: GeneralFormat)
    ensures TextScan(lines, render) == ExpectedScan(FieldRows(KeptLines(lines)), render)
    decreases |lines|
  {
    if lines != [] {
      var init := lines[..|lines| - 1];
      var row := Strip(lines[|lines| - 1]);
      TextScanIsExpected(init, render);
      var prev := KeptLines(init);
      var pf := FieldRows(prev);
      if !Dropped(row, prev != []) {
        var fields := SplitFields(row);
        FieldRowsSnoc(prev, row);
        if ExpectedScan(pf, render).None? {
          ExpectedFailed(pf, fields, render);
        } else {
          ExpectedScanCleaned(pf, render);
          if prev == [] {
            assert pf + [fields] == [fields];
            ExpectedFirst(fields, render);
          } else {
            if StatMarker in fields {
              FieldOccursInRow(row, StatMarker);
            }
            ExpectedNext(pf, fields, render);
          }
        }
      } else if ExpectedScan(pf, render).Some? {
        ExpectedScanCleaned(pf, render);
      }
    }
  }

  /** The classifier keeps an order-preserving selection of the stripped
      input lines. */
  lemma {:induction false} KeptLinesSubsequence(lines: seq<string>)
    ensures |KeptLines(lines)| <= |lines|
    ensures IsSubsequence(KeptLines(lines), StripAll(lines))
    decreases |lines|
  {
    if lines != [] {
      var init := lines[..|lines| - 1];
      var row := Strip(lines[|lines| - 1]);
      KeptLinesSubsequence(init);
      SnocSplit(lines);
      StripAllSnoc(init, lines[|lines| - 1]);
      var prev := KeptLines(init);
      SubsequenceSnoc(prev, StripAll(init), row);
      if Dropped(row, prev != []) {
        assert KeptLines(lines) == prev;
      } else {
        assert KeptLines(lines) == prev + [row];
      }
      SubsequenceLength(KeptLines(lines), StripAll(lines));
    }
  }

  /** No kept line is decoration, and no line after the first kept one
      contains "Stat". */
  lemma {:induction false} KeptLinesClean(lines: seq<string>)
    ensures forall k :: 0 <= k < |KeptLines(lines)| ==> !IsNoise(KeptLines(lines)[k])
    ensures forall k :: 1 <= k < |KeptLines(lines)| ==> !Contains(KeptLines(lines)[k], StatMarker)
    decreases |lines|
  {
    if lines != [] {
      var init := lines[..|lines| - 1];
      KeptLinesClean(init);
      var prev := KeptLines(init);
      var kept := KeptLines(lines);
      if kept != prev {
        assert forall k :: 0 <= k < |prev| ==> kept[k] == prev[k];
      }
    }
  }

  /** Hence only the first kept line can be a header. */
  lemma OnlyFirstHeader(lines: seq<string>)
    ensures forall k :: 1 <= k < |KeptLines(lines)| ==> StatMarker !in SplitFields(KeptLines(lines)[k])
  {
    KeptLinesClean(lines);
    var kept := KeptLines(lines);
    forall k | 1 <= k < |kept|
      ensures StatMarker !in SplitFields(kept[k])
    {
      if StatMarker in SplitFields(kept[k]) {
        FieldOccursInRow(kept[k], StatMarker);
      }
    }
  }

  /** A successful expected state: one output line per row, each ending
      in a newline; the first is the header line of the first row (which
      has "Stat", "Account" and "LC amnt" among its fields), and every later
      one is the data line of the corresponding row for the header's
      columns. */
  lemma ExpectedOutput(rows: seq<seq<string>>, render: GeneralFormat)
    requires ExpectedScan(rows, render).Some?
    ensures var out := ExpectedScan(rows, render).value.cleaned;
      && |out| == |rows|
      && (forall k :: 0 <= k < |out| ==> EndsWithNewline(out[k]))
      && (rows != [] ==>
            && StatMarker in rows[0] && AccountName in rows[0] && LcAmntName in rows[0]
            && out[0] == HeaderLine(rows[0])
            && forall k :: 1 <= k < |out| ==>
                 DataLine(rows[k], LocateColumns(rows[0]).value, render) == Some(out[k]))
  {
    if rows != [] {
      var c := LocateColumns(rows[0]).value;
      var tail := rows[1..];
      DataLinesAll(tail, c, render);
      var data := DataLines(tail, c, render).value;
      var out := ExpectedScan(rows, render).value.cleaned;
      assert out == [HeaderLine(rows[0])] + data;
      assert |out| == |rows|;
      forall k | 1 <= k < |out|
        ensures DataLine(rows[k], c, render) == Some(out[k])
      {
        TailIndex(rows, k);
        ConsIndex(HeaderLine(rows[0]), data, k);
      }
    }
  }

  /** The expected state is None exactly when there is a first row and
      either it is not a header naming both columns, or some later row has
      no data line. */
  lemma ExpectedFailure(rows: seq<seq<string>>, render: GeneralFormat)
    ensures ExpectedScan(rows, render).None? <==>
      && rows != []
      && (|| StatMarker !in rows[0]
          || LocateColumns(rows[0]).None?
          || exists k :: 1 <= k < |rows| && DataLine(rows[k], LocateColumns(rows[0]).value, render).None?)
  {
    if rows != [] && StatMarker in rows[0] && LocateColumns(rows[0]).Some? {
      var c := LocateColumns(rows[0]).value;
      var tail := rows[1..];
      DataLinesAll(tail, c, render);
      if DataLines(tail, c, render).None? {
        var j :| 0 <= j < |tail| && DataLine(tail[j], c, render).None?;
        assert rows[j + 1] == tail[j];
      } else {
        forall k | 1 <= k < |rows|
          ensures DataLine(rows[k], c, render).Some?
        {
          assert rows[k] == tail[k - 1];
        }
      }
    }
  }

  /** What a successful `format_rows` returns, in terms of the fields of the
      kept lines: as many lines as were kept (no more than the input has),
      the first kept line's header and one data line per later kept line. */
  lemma TextOutput(lines: seq<string>, render: GeneralFormat)
    requires CleanText(lines, render).Some?
    ensures var out := CleanText(lines, render).value;
      var rows := FieldRows(KeptLines(lines));
      && |out| == |rows| <= |lines|
      && (forall k :: 0 <= k < |out| ==> EndsWithNewline(out[k]))
      && (rows != [] ==>
            && StatMarker in rows[0] && AccountName in rows[0] && LcAmntName in rows[0]
            && out[0] == HeaderLine(rows[0])
            && forall k :: 1 <= k < |out| ==>
                 DataLine(rows[k], LocateColumns(rows[0]).value, render) == Some(out[k]))
  {
    TextScanIsExpected(lines, render);
    KeptLinesSubsequence(lines);
    ExpectedOutput(FieldRows(KeptLines(lines)), render);
  }

  /** When `format_rows` returns None: exactly when something is kept and
      either the first kept line is not a header naming both columns (a
      data row before the header, or a header without "Account" or
      "LC amnt"), or some later kept line has no data line (an index past
      its end, or an account value `format_account` rejects). */
  lemma TextFailure(lines: seq<string>, render: GeneralFormat)
    ensures var rows := FieldRows(KeptLines(lines));
      CleanText(lines, render).None? <==>
        && rows != []
        && (|| StatMarker !in rows[0]
            || LocateColumns(rows[0]).None?
            || exists k :: 1 <= k < |rows| && DataLine(rows[k], LocateColumns(rows[0]).value, render).None?)
  {
    TextScanIsExpected(lines, render);
    ExpectedFailure(FieldRows(KeptLines(lines)), render);
  }
}
