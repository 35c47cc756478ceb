/** What both `format_rows` variants do with one row once it is split into
    fields: locate the two special columns on the header row, and rewrite
    those two fields on a data row. */
module Rows {
  import opened Wrappers
  import opened PyStr
  import opened Formatting

  /** One element of a cleaned row: a string, or the None that
      `format_account` returns when it fails. */
  type Cell = Option<string>

  /** A field exactly equal to this marks the header row. */
  const StatMarker := "Stat"
  const AccountName := "Account"
  const LcAmntName := "LC amnt"

  datatype ColumnPair = ColumnPair(account: nat, lcAmnt: nat)

  /** `account_col_index` and `lc_amnt_col_index` once both are set. They
      are positions of two different names in one row, so they differ. */
  type Columns = c: ColumnPair | c.account != c.lcAmnt witness ColumnPair(0, 1)

  /** `row_data.index("Account")` and `row_data.index("LC amnt")` on the
      header row; None where either raises ValueError. */
  function LocateColumns(fields: seq<string>): (r: Option<Columns>)
    ensures r.Some? <==> AccountName in fields && LcAmntName in fields
    ensures r.Some? ==>
      && r.value.account < |fields| && fields[r.value.account] == AccountName
      && AccountName !in fields[..r.value.account]
      && r.value.lcAmnt < |fields| && fields[r.value.lcAmnt] == LcAmntName
      && LcAmntName !in fields[..r.value.lcAmnt]
  {
    match IndexOf(fields, AccountName)
    case None => None
    case Some(a) =>
      match IndexOf(fields, LcAmntName)
      case None => None
      case Some(l) => Some(ColumnPair(a, l))
  }

  /** The fields as a list whose elements may later be replaced by None. */
  function Lift(fields: seq<string>): (r: seq<Cell>)
    ensures |r| == |fields|
    ensures forall k :: 0 <= k < |fields| ==> r[k] == Some(fields[k])
  {
    seq(|fields|, k requires 0 <= k < |fields| => Some(fields[k]))
  }

  /** The two index variables of `format_rows` as one optional pair; they
      are set together and point at different fields. */
  function IndexPair(a: Option<nat>, l: Option<nat>): Option<Columns>
    requires a.Some? <==> l.Some?
    requires a.Some? ==> a.value != l.value
  {
    if a.Some? then Some(ColumnPair(a.value, l.value)) else None
  }

  /** The two assignments of a data row,
      `row_data[a] = format_account(row_data[a])` and
      `row_data[l] = format_lc_amnt(row_data[l])`; None where either index
      is past the end of the row (IndexError). */
  function RewriteFields(fields: seq<string>, c: Columns, render: GeneralFormat): (r: Option<seq<Cell>>)
    ensures r.Some? <==> c.account < |fields| && c.lcAmnt < |fields|
    ensures r.Some? ==>
      && |r.value| == |fields|
      && r.value[c.account] == FormatAccount(fields[c.account], render)
      && r.value[c.lcAmnt] == Some(FormatLcAmnt(fields[c.lcAmnt]))
      && forall k :: 0 <= k < |fields| && k != c.account && k != c.lcAmnt ==> r.value[k] == Some(fields[k])
  {
    if c.account < |fields| && c.lcAmnt < |fields| then
      var cells := Lift(fields)[c.account := FormatAccount(fields[c.account], render)];
      Some(cells[c.lcAmnt := Some(FormatLcAmnt(fields[c.lcAmnt]))])
    else None
  }

  /** The two assignments as sequence updates, given both indices are in
      range. */
  lemma RewriteStored(fields: seq<string>, c: Columns, render: GeneralFormat)
    requires c.account < |fields| && c.lcAmnt < |fields|
    ensures RewriteFields(fields, c, render) ==
      Some(Lift(fields)[c.account := FormatAccount(fields[c.account], render)][c.lcAmnt := Some(FormatLcAmnt(fields[c.lcAmnt]))])
  {
  }

  predicate AllPresent(cells: seq<Cell>) {
    forall k :: 0 <= k < |cells| ==> cells[k].Some?
  }

  function Values(cells: seq<Cell>): (r: seq<string>)
    requires AllPresent(cells)
    ensures |r| == |cells|
    ensures forall k :: 0 <= k < |cells| ==> r[k] == cells[k].value
  {
    seq(|cells|, k requires 0 <= k < |cells| => cells[k].value)
  }

  /** `sep.join(cells)`; None where an element is None (TypeError). */
  function JoinCells(cells: seq<Cell>, sep: string): (r: Option<string>)
    ensures r.Some? <==> AllPresent(cells)
    ensures r.Some? ==> r.value == Join(Values(cells), sep)
  {
    if AllPresent(cells) then Some(Join(Values(cells), sep)) else None
  }

  /** Joining fields that were never replaced cannot fail. */
  lemma JoinLift(fields: seq<string>, sep: string)
    ensures JoinCells(Lift(fields), sep) == Some(Join(fields, sep))
  {
    assert Values(Lift(fields)) == fields;
  }

  /** A `;` survives `format_lc_amnt` only if it was already there. */
  lemma LcAmntKeepsOutSemicolon(v: string)
    requires ';' !in v
    ensures ';' !in FormatLcAmnt(v)
  {
    var w := RemoveChar(v, ',');
    assert multiset(w)[';'] == multiset(v)[';'] == 0;
    assert ';' !in w;
  }
}
