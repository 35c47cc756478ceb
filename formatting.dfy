/** The two field formatters, `format_account` and `format_lc_amnt`, which
    both cleaning scripts define identically. */
module Formatting {
  import opened Wrappers
  import opened PyStr

  /** Python's `f"{n:G}"` for an int `n`, supplied by the caller. Python
      converts `n` to a float first, which raises OverflowError (None here)
      when `n` is outside the float range, and then renders the float in
      general notation. The float rendering itself is not modelled. */
  type GeneralFormat = int -> Option<string>

  /** Account values longer than this are rewritten; shorter ones pass. */
  const AccountPlainWidth := 11

  predicate IsDigit(c: char) {
    '0' <= c <= '9'
  }

  predicate AllDigits(s: string) {
    forall i :: 0 <= i < |s| ==> IsDigit(s[i])
  }

  /** The value of a string of decimal digits, most significant first. */
  function DigitsValue(ds: string): nat
    requires AllDigits(ds)
    decreases |ds|
  {
    if ds == [] then 0 else 10 * DigitsValue(ds[..|ds| - 1]) + (ds[|ds| - 1] as int - '0' as int)
  }

  /** `t` without one leading sign character, if it has one. */
  function Unsigned(t: string): string {
    if |t| > 0 && (t[0] == '+' || t[0] == '-') then t[1..] else t
  }

  /** What `int()` accepts once surrounding whitespace is stripped, in this
      ASCII model: an optional sign followed by at least one digit. */
  predicate IsIntLiteral(t: string) {
    |Unsigned(t)| > 0 && AllDigits(Unsigned(t))
  }

  /** `int(s)`; None where Python raises ValueError. */
  function ParseInt(s: string): (r: Option<int>)
    ensures r.Some? <==> IsIntLiteral(Strip(s))
    ensures r.Some? ==> (r.value < 0 <==> Strip(s)[0] == '-' && DigitsValue(Unsigned(Strip(s))) != 0)
  {
    var t := Strip(s);
    if IsIntLiteral(t) then
      var n: int := DigitsValue(Unsigned(t));
      Some(if t[0] == '-' then -n else n)
    else None
  }

  /** The shortest decimal digits of `n`. */
  function NatDigits(n: nat): (r: string)
    ensures |r| >= 1 && AllDigits(r)
    ensures DigitsValue(r) == n
  {
    var last := ('0' as int + n % 10) as char;
    if n < 10 then [last]
    else
      var init := NatDigits(n / 10);
      assert (init + [last])[..|init|] == init;
      init + [last]
  }

  /** `str(n)`: the decimal rendering of `n`. */
  function Decimal(n: int): string {
    if n < 0 then "-" + NatDigits(-n) else NatDigits(n)
  }

  /** `int(str(n)) == n`. */
  lemma ParseDecimal(n: int)
    ensures ParseInt(Decimal(n)) == Some(n)
  {
    var s := Decimal(n);
    var m: nat := if n < 0 then -n else n;
    var ds := NatDigits(m);
    assert IsDigit(ds[0]) && IsDigit(ds[|ds| - 1]);
    assert !IsSpace(s[0]) && !IsSpace(s[|s| - 1]);
    StripUnpadded(s);
    assert Unsigned(s) == ds;
    assert IsIntLiteral(s);
    assert DigitsValue(Unsigned(s)) == m;
  }

  /** `format_account(value)`: values of at most 11 characters pass through;
      longer ones are parsed as an int and rendered in general notation with
      `.` turned into `,`. The source logs and swallows any exception, so a
      value `int()` rejects, or an int too large for a float, gives None. */
  function FormatAccount(value: string, render: GeneralFormat): (r: Option<string>)
    ensures |value| <= AccountPlainWidth ==> r == Some(value)
    ensures |value| > AccountPlainWidth ==>
      (r.Some? <==> ParseInt(value).Some? && render(ParseInt(value).value).Some?)
    ensures |value| > AccountPlainWidth && r.Some? ==>
      && r.value == ReplaceChar(render(ParseInt(value).value).value, '.', ',')
      && '.' !in r.value && |r.value| == |render(ParseInt(value).value).value|
  {
    if |value| > AccountPlainWidth then
      match ParseInt(value)
      case None => None
      case Some(n) =>
        match render(n)
        case None => None
        case Some(g) => Some(ReplaceChar(g, '.', ','))
    else Some(value)
  }

  /** A long account value that `int()` rejects makes the formatter give None,
      whatever the renderer does. */
  lemma FormatAccountRejects(value: string, render: GeneralFormat)
    requires |value| > AccountPlainWidth
    requires !IsIntLiteral(Strip(value))
    ensures FormatAccount(value, render) == None
  {
  }

  /** Swapping `,` back to `.` recovers the general-notation rendering, as
      long as that rendering has no `,` of its own. */
  lemma FormatAccountUndo(value: string, render: GeneralFormat)
    requires |value| > AccountPlainWidth
    requires FormatAccount(value, render).Some?
    requires ',' !in render(ParseInt(value).value).value
    ensures ReplaceChar(FormatAccount(value, render).value, ',', '.') == render(ParseInt(value).value).value
  {
    var g := render(ParseInt(value).value).value;
    var r := FormatAccount(value, render).value;
    assert r == ReplaceChar(g, '.', ',');
    assert forall i :: 0 <= i < |g| ==> ReplaceChar(r, ',', '.')[i] == g[i];
  }

  /** `format_lc_amnt(value)`: delete every `,`; then, if a `-` remains
      anywhere, put a `-` in front and drop the last character. */
  function FormatLcAmnt(value: string): (r: string)
    ensures ',' !in r
    ensures |r| == |RemoveChar(value, ',')|
    ensures '-' !in RemoveChar(value, ',') ==> r == RemoveChar(value, ',')
    ensures '-' in RemoveChar(value, ',') ==>
      r[0] == '-' && r[1..] == RemoveChar(value, ',')[..|r| - 1]
  {
    var v := RemoveChar(value, ',');
    if '-' in v then
      assert forall i :: 0 <= i < |v| - 1 ==> v[..|v| - 1][i] == v[i];
      "-" + v[..|v| - 1]
    else v
  }

  /** Deleting a character distributes over concatenation. */
  lemma {:induction false} RemoveCharAppend(a: string, b: string, c: char)
    ensures RemoveChar(a + b, c) == RemoveChar(a, c) + RemoveChar(b, c)
  {
    if a == [] {
      assert a + b == b;
    } else {
      assert (a + b)[0] == a[0];
      assert (a + b)[1..] == a[1..] + b;
      RemoveCharAppend(a[1..], b, c);
    }
  }

  /** The intended case: an amount written with a trailing sign and no other
      `-` has the sign moved to the front, with its thousands commas gone. */
  lemma LcAmntTrailingSign(m: string)
    requires '-' !in m
    ensures FormatLcAmnt(m + "-") == "-" + RemoveChar(m, ',')
  {
    RemoveCharAppend(m, "-", ',');
    var v := RemoveChar(m + "-", ',');
    assert v == RemoveChar(m, ',') + "-";
    assert v[|v| - 1] == '-';
    assert v[..|v| - 1] == RemoveChar(m, ',');
  }

  /** The formatter is not idempotent: `"5-"` becomes `"-5"`, which becomes
      `"--"`. */
  lemma LcAmntNotIdempotent()
    ensures FormatLcAmnt("5-") == "-5"
    ensures FormatLcAmnt(FormatLcAmnt("5-")) == "--"
  {
    LcAmntTrailingSign("5");
    var v := RemoveChar("-5", ',');
    RemoveAbsentChar("-5", ',');
    assert v[0] == '-';
  }

  /** On a value without commas that has a `-` anywhere, the formatter puts
      a `-` in front and drops the last character. */
  lemma LcAmntDashed(v: string)
    requires ',' !in v && '-' in v
    ensures FormatLcAmnt(v) == "-" + v[..|v| - 1]
  {
    RemoveAbsentChar(v, ',');
  }

  /** A `-` that is not the last character still costs the last character:
      `"12-34"` becomes `"-12-3"`. */
  lemma LcAmntStrayDash()
    ensures FormatLcAmnt("12-34") == "-12-3"
  {
    var v := "12-34";
    assert v[2] == '-';
    assert forall i :: 0 <= i < |v| ==> v[i] != ',';
    LcAmntDashed(v);
    assert "-" + v[..4] == "-12-3";
  }

  /** Deleting the commas of `"1.234,56"` gives `"1.23456"`. */
  lemma RemoveCommaExample()
    ensures RemoveChar("1.234,56", ',') == "1.23456"
  {
    var head, tail := "1.234", "56";
    assert "1.234,56" == head + ([','] + tail);
    RemoveCharAppend(head, [','] + tail, ',');
    RemoveAbsentChar(head, ',');
    assert ([','] + tail)[1..] == tail;
    RemoveAbsentChar(tail, ',');
  }

  /** The thousands-separated amount `"1.234,56-"` becomes `"-1.23456"`:
      the comma goes and the trailing sign moves to the front. */
  lemma LcAmntExample()
    ensures FormatLcAmnt("1.234,56-") == "-1.23456"
  {
    var m := "1.234,56";
    assert forall i :: 0 <= i < |m| ==> m[i] != '-';
    LcAmntTrailingSign(m);
    assert m + "-" == "1.234,56-";
    RemoveCommaExample();
    assert "-" + RemoveChar(m, ',') == "-1.23456";
  }
}
