/**
 * Cells, their normalisation into candidate tokens, and the grid of a sheet
 * as the spreadsheet reader exposes it. Both scripts treat a cell the same
 * way: a value equal to the empty cell's value `''` is skipped, a text value
 * is stripped, and any other value (a number, a date, a boolean or an error
 * code, none of which has `.strip()`) is converted to text first and then
 * stripped. The stripped candidate is a token when the ISSN pattern matches
 * it.
 */
module Sheets {
  import opened Collections
  import opened IssnPattern

  /** A cell value: empty or blank (value `''`), text, or a non-text value. */
  datatype Cell = Empty | Text(text: string) | Numeric(number: real)

  /** `unicode(value)` for a non-text value; its output is not modelled. */
  type Stringify = real -> string

  /** The characters Python 2's `unicode.strip()` removes. */
  predicate IsSpace(ch: char) {
    || ('\U{9}' <= ch <= '\U{D}')
    || ('\U{1C}' <= ch <= '\U{20}')
    || ch == '\U{85}' || ch == '\U{A0}' || ch == '\U{1680}' || ch == '\U{180E}'
    || ('\U{2000}' <= ch <= '\U{200A}')
    || ch == '\U{2028}' || ch == '\U{2029}' || ch == '\U{202F}' || ch == '\U{205F}'
    || ch == '\U{3000}'
  }

  /** `s` with its leading whitespace removed. */
  function TrimLeft(s: string): (r: string)
    ensures |r| <= |s|
  {
    if |s| > 0 && IsSpace(s[0]) then TrimLeft(s[1..]) else s
  }

  /** `s` with its trailing whitespace removed. */
  function TrimRight(s: string): (r: string)
    ensures |r| <= |s|
  {
    if |s| > 0 && IsSpace(s[|s| - 1]) then TrimRight(s[..|s| - 1]) else s
  }

  /** `TrimLeft(s)` is the longest suffix of `s` that does not start with whitespace. */
  lemma {:induction false} TrimLeftSpec(s: string)
    ensures var r := TrimLeft(s);
      && |r| <= |s| && r == s[|s| - |r|..]
      && (forall k :: 0 <= k < |s| - |r| ==> IsSpace(s[k]))
      && (|r| > 0 ==> !IsSpace(r[0]))
  {
    if |s| > 0 && IsSpace(s[0]) {
      var t := s[1..];
      TrimLeftSpec(t);
      var r := TrimLeft(t);
      assert t[|t| - |r|..] == s[|s| - |r|..];
      forall k | 1 <= k < |s| - |r|
        ensures IsSpace(s[k])
      {
        assert s[k] == t[k - 1];
      }
    }
  }

  /** `TrimRight(s)` is the longest prefix of `s` that does not end in whitespace. */
  lemma {:induction false} TrimRightSpec(s: string)
    ensures var r := TrimRight(s);
      && |r| <= |s| && r == s[..|r|]
      && (forall k :: |r| <= k < |s| ==> IsSpace(s[k]))
      && (|r| > 0 ==> !IsSpace(r[|r| - 1]))
  {
    if |s| > 0 && IsSpace(s[|s| - 1]) {
      var t := s[..|s| - 1];
      TrimRightSpec(t);
      var r := TrimRight(t);
      assert t[..|r|] == s[..|r|];
      forall k | |r| <= k < |s| - 1
        ensures IsSpace(s[k])
      {
        assert s[k] == t[k];
      }
    }
  }

  /** `s.strip()`. */
  function Strip(s: string): (r: string)
    ensures |r| <= |s|
  {
    TrimRight(TrimLeft(s))
  }

  /**
   * The stripped value is the part of `s` between its leading and its
   * trailing whitespace, and it neither starts nor ends with whitespace.
   */
  lemma StripSpec(s: string)
    ensures var r := Strip(s);
      var i := |s| - |TrimLeft(s)|;
      && i + |r| <= |s| && r == s[i..i + |r|]
      && (forall k :: 0 <= k < i ==> IsSpace(s[k]))
      && (forall k :: i + |r| <= k < |s| ==> IsSpace(s[k]))
      && (|r| > 0 ==> !IsSpace(r[0]) && !IsSpace(r[|r| - 1]))
  {
    TrimLeftSpec(s);
    StripIsInfix(s);
    StripTrailing(s);
    StripEnds(s);
  }

  lemma StripIsInfix(s: string)
    ensures var i := |s| - |TrimLeft(s)|; i + |Strip(s)| <= |s| && Strip(s) == s[i..i + |Strip(s)|]
  {
    var t := TrimLeft(s);
    TrimLeftSpec(s);
    TrimRightSpec(t);
    var i := |s| - |t|;
    var r := TrimRight(t);
    assert t[..|r|] == s[i..i + |r|];
  }

  lemma StripTrailing(s: string)
    ensures var i := |s| - |TrimLeft(s)|; forall k :: i + |Strip(s)| <= k < |s| ==> IsSpace(s[k])
  {
    var t := TrimLeft(s);
    TrimLeftSpec(s);
    TrimRightSpec(t);
    var i := |s| - |t|;
    var r := TrimRight(t);
    forall k | i + |r| <= k < |s|
      ensures IsSpace(s[k])
    {
      assert s[k] == t[k - i];
    }
  }

  lemma StripEnds(s: string)
    ensures var r := Strip(s); |r| > 0 ==> !IsSpace(r[0]) && !IsSpace(r[|r| - 1])
  {
    var t := TrimLeft(s);
    TrimLeftSpec(s);
    TrimRightSpec(t);
    var r := TrimRight(t);
    if |r| > 0 {
      assert r[0] == t[0];
    }
  }

  /** Stripping twice is stripping once. */
  lemma StripIdempotent(s: string)
    ensures Strip(Strip(s)) == Strip(s)
  {
    StripSpec(s);
    var r := Strip(s);
    assert TrimLeft(r) == r;
    assert TrimRight(r) == r;
  }

  /**
   * The candidate string of a cell, or None when the cell is skipped: the
   * value equals the empty cell's value `''`.
   */
  function Normalize(cell: Cell, toStr: Stringify): (v: Option<string>)
    ensures v.None? <==> cell == Empty || cell == Text("")
    ensures cell.Text? && v.Some? ==> v.value == Strip(cell.text)
    ensures cell.Numeric? ==> v == Some(Strip(toStr(cell.number)))
  {
    match cell
    case Empty => None
    case Text(s) => if s == "" then None else Some(Strip(s))
    case Numeric(n) => Some(Strip(toStr(n)))
  }

  /** A candidate never starts or ends with whitespace, in particular never with a newline. */
  lemma CandidateIsStripped(cell: Cell, toStr: Stringify)
    requires Normalize(cell, toStr).Some?
    ensures var v := Normalize(cell, toStr).value;
      |v| == 0 || (!IsSpace(v[0]) && !IsSpace(v[|v| - 1]))
  {
    match cell
    case Text(s) => StripSpec(s);
    case Numeric(n) => StripSpec(toStr(n));
  }

  /**
   * The token a cell contributes: its candidate string, when the pattern
   * matches it. Since the candidate is stripped it cannot end in a newline,
   * so `re.match` and a whole-string match agree on it.
   */
  function CellToken(cell: Cell, toStr: Stringify): (t: Option<string>)
    ensures t.Some? ==> t == Normalize(cell, toStr)
  {
    match Normalize(cell, toStr)
    case None => None
    case Some(v) => if RegexMatches(v) then Some(v) else None
  }

  /**
   * A cell yields a token exactly when it is not skipped and its candidate
   * is an ISSN, and the token is the candidate itself.
   */
  lemma CellTokenSpec(cell: Cell, toStr: Stringify)
    ensures var t := CellToken(cell, toStr);
      && (t.Some? <==> Normalize(cell, toStr).Some? && IsIssn(Normalize(cell, toStr).value))
      && (t.Some? ==> t == Normalize(cell, toStr))
  {
    if Normalize(cell, toStr).Some? {
      var v := Normalize(cell, toStr).value;
      CandidateIsStripped(cell, toStr);
      MatchWithoutFinalNewline(v);
    }
  }

  /** Every token is an ISSN without surrounding whitespace, and empty cells give none. */
  lemma TokenIsStrippedIssn(cell: Cell, toStr: Stringify)
    requires CellToken(cell, toStr).Some?
    ensures var v := CellToken(cell, toStr).value;
      && IsIssn(v) && Strip(v) == v
      && cell != Empty && cell != Text("")
  {
    var v := CellToken(cell, toStr).value;
    CellTokenSpec(cell, toStr);
    IssnAlphabet(v);
    assert TrimLeft(v) == v;
    assert TrimRight(v) == v;
  }

  /** A text cell holding exactly an ISSN yields that ISSN as its token. */
  lemma IssnTextIsToken(s: string, toStr: Stringify)
    requires IsIssn(s)
    ensures CellToken(Text(s), toStr) == Some(s)
  {
    IssnAlphabet(s);
    assert !IsSpace(s[0]) && !IsSpace(s[|s| - 1]);
    assert Strip(s) == s by {
      assert TrimLeft(s) == s;
      assert TrimRight(s) == s;
    }
    assert Normalize(Text(s), toStr) == Some(s);
  }

  /** A text cell whose text has no surrounding whitespace and is no ISSN yields nothing. */
  lemma NonIssnTextIsNoToken(s: string, toStr: Stringify)
    requires |s| > 0 && !IsSpace(s[0]) && !IsSpace(s[|s| - 1]) && !IsIssn(s)
    ensures CellToken(Text(s), toStr) == None
  {
    assert Strip(s) == s by {
      assert TrimLeft(s) == s;
      assert TrimRight(s) == s;
    }
    assert Normalize(Text(s), toStr) == Some(s);
    MatchWithoutFinalNewline(s);
  }

  function AsSeq(t: Option<string>): seq<string> {
    if t.Some? then [t.value] else []
  }

  /** The tokens of a row, scanned left to right, repetitions included. */
  function RowTokens(row: seq<Cell>, toStr: Stringify): (ts: seq<string>)
    ensures |ts| <= |row|
  {
    if row == [] then []
    else RowTokens(row[..|row| - 1], toStr) + AsSeq(CellToken(row[|row| - 1], toStr))
  }

  /** The tokens of a grid, scanned row by row, repetitions included. */
  function SheetTokens(rows: seq<seq<Cell>>, toStr: Stringify): seq<string> {
    if rows == [] then []
    else SheetTokens(rows[..|rows| - 1], toStr) + RowTokens(rows[|rows| - 1], toStr)
  }

  /** Scanning one more cell of a row appends that cell's token, if any. */
  lemma RowTokensSnoc(row: seq<Cell>, c: int, toStr: Stringify)
    requires 0 <= c < |row|
    ensures RowTokens(row[..c + 1], toStr) == RowTokens(row[..c], toStr) + AsSeq(CellToken(row[c], toStr))
  {
    assert row[..c + 1][..c] == row[..c];
  }

  /** Scanning one more row appends that row's tokens. */
  lemma SheetTokensSnoc(rows: seq<seq<Cell>>, r: int, toStr: Stringify)
    requires 0 <= r < |rows|
    ensures SheetTokens(rows[..r + 1], toStr) == SheetTokens(rows[..r], toStr) + RowTokens(rows[r], toStr)
  {
    assert rows[..r + 1][..r] == rows[..r];
  }

  /** The tokens of a two-cell row, cell by cell. */
  lemma TwoCellRow(row: seq<Cell>, toStr: Stringify)
    requires |row| == 2
    ensures RowTokens(row, toStr) == AsSeq(CellToken(row[0], toStr)) + AsSeq(CellToken(row[1], toStr))
  {
    var t0, t1 := AsSeq(CellToken(row[0], toStr)), AsSeq(CellToken(row[1], toStr));
    assert RowTokens(row[..1], toStr) == t0 by {
      assert row[..0] == [];
      RowTokensSnoc(row, 0, toStr);
    }
    assert RowTokens(row[..2], toStr) == t0 + t1 by { RowTokensSnoc(row, 1, toStr); }
    assert row[..2] == row;
  }

  /** A one-row grid has that row's tokens. */
  lemma OneRowSheet(rows: seq<seq<Cell>>, toStr: Stringify)
    requires |rows| == 1
    ensures SheetTokens(rows, toStr) == RowTokens(rows[0], toStr)
  {
    assert rows[..0] == [];
  }

  /** Cell `c` of `row` yields token `x`. */
  predicate TokenAt(row: seq<Cell>, toStr: Stringify, c: int, x: string) {
    0 <= c < |row| && CellToken(row[c], toStr) == Some(x)
  }

  /** Every token of a row comes from one of its cells. */
  lemma {:induction false} RowTokenHasCell(row: seq<Cell>, toStr: Stringify, x: string)
    requires x in RowTokens(row, toStr)
    ensures exists c :: TokenAt(row, toStr, c, x)
  {
    var last := |row| - 1;
    var init := row[..last];
    assert RowTokens(row, toStr) == RowTokens(init, toStr) + AsSeq(CellToken(row[last], toStr));
    if x in RowTokens(init, toStr) {
      RowTokenHasCell(init, toStr, x);
      var c :| TokenAt(init, toStr, c, x);
      assert init[c] == row[c];
      assert TokenAt(row, toStr, c, x);
    } else {
      assert TokenAt(row, toStr, last, x);
    }
  }

  /** The token of every cell of a row is among the row's tokens. */
  lemma {:induction false} CellTokenInRow(row: seq<Cell>, toStr: Stringify, c: int, x: string)
    requires TokenAt(row, toStr, c, x)
    ensures x in RowTokens(row, toStr)
  {
    var last := |row| - 1;
    var init := row[..last];
    var t := CellToken(row[last], toStr);
    assert RowTokens(row, toStr) == RowTokens(init, toStr) + AsSeq(t);
    if c < last {
      assert TokenAt(init, toStr, c, x) by {
        assert init[c] == row[c];
      }
      CellTokenInRow(init, toStr, c, x);
    } else {
      assert c == last;
      assert AsSeq(t) == [x];
    }
  }

  /** A row's tokens are exactly the tokens of its cells. */
  lemma RowTokensSpec(row: seq<Cell>, toStr: Stringify, x: string)
    ensures x in RowTokens(row, toStr) <==> exists c :: TokenAt(row, toStr, c, x)
  {
    if x in RowTokens(row, toStr) {
      RowTokenHasCell(row, toStr, x);
    }
    if c :| TokenAt(row, toStr, c, x) {
      CellTokenInRow(row, toStr, c, x);
    }
  }

  /** Cell `c` of row `r` of `rows` yields token `x`. */
  predicate GridTokenAt(rows: seq<seq<Cell>>, toStr: Stringify, r: int, c: int, x: string) {
    0 <= r < |rows| && TokenAt(rows[r], toStr, c, x)
  }

  /** Every token of a grid comes from one of its cells. */
  lemma {:induction false} SheetTokenHasCell(rows: seq<seq<Cell>>, toStr: Stringify, x: string)
    requires x in SheetTokens(rows, toStr)
    ensures exists r, c :: GridTokenAt(rows, toStr, r, c, x)
  {
    var last := |rows| - 1;
    var init := rows[..last];
    assert SheetTokens(rows, toStr) == SheetTokens(init, toStr) + RowTokens(rows[last], toStr);
    if x in SheetTokens(init, toStr) {
      SheetTokenHasCell(init, toStr, x);
      var r, c :| GridTokenAt(init, toStr, r, c, x);
      assert init[r] == rows[r];
      assert GridTokenAt(rows, toStr, r, c, x);
    } else {
      RowTokenHasCell(rows[last], toStr, x);
      var c :| TokenAt(rows[last], toStr, c, x);
      assert GridTokenAt(rows, toStr, last, c, x);
    }
  }

  /** The token of every cell of a grid is among the grid's tokens. */
  lemma {:induction false} CellTokenInSheet(rows: seq<seq<Cell>>, toStr: Stringify, r: int, c: int, x: string)
    requires GridTokenAt(rows, toStr, r, c, x)
    ensures x in SheetTokens(rows, toStr)
    decreases |rows|, 1
  {
    var last := |rows| - 1;
    if r < last {
      EarlierRowInSheet(rows, toStr, r, c, x);
    } else {
      CellTokenInRow(rows[last], toStr, c, x);
    }
  }

  lemma {:induction false} EarlierRowInSheet(rows: seq<seq<Cell>>, toStr: Stringify, r: int, c: int, x: string)
    requires GridTokenAt(rows, toStr, r, c, x) && r < |rows| - 1
    ensures x in SheetTokens(rows, toStr)
    decreases |rows|, 0
  {
    var init := rows[..|rows| - 1];
    assert GridTokenAt(init, toStr, r, c, x) by {
      assert init[r] == rows[r];
    }
    CellTokenInSheet(init, toStr, r, c, x);
  }

  /** A grid's tokens are exactly the tokens of its cells. */
  lemma SheetTokensSpec(rows: seq<seq<Cell>>, toStr: Stringify, x: string)
    ensures x in SheetTokens(rows, toStr) <==> exists r, c :: GridTokenAt(rows, toStr, r, c, x)
  {
    if x in SheetTokens(rows, toStr) {
      SheetTokenHasCell(rows, toStr, x);
    }
    if r, c :| GridTokenAt(rows, toStr, r, c, x) {
      CellTokenInSheet(rows, toStr, r, c, x);
    }
  }

  /** Every token of a grid is an ISSN. */
  lemma {:induction false} SheetTokensAreIssns(rows: seq<seq<Cell>>, toStr: Stringify)
    ensures forall x :: x in SheetTokens(rows, toStr) ==> IsIssn(x)
  {
    forall x | x in SheetTokens(rows, toStr)
      ensures IsIssn(x)
    {
      SheetTokensSpec(rows, toStr, x);
      var r, c :| GridTokenAt(rows, toStr, r, c, x);
      CellTokenSpec(rows[r][c], toStr);
    }
  }

  /** A sheet: its name and its grid, `nrows` rows of `ncols` cells each. */
  datatype Sheet = Sheet(name: string, rows: seq<seq<Cell>>, ncols: nat)

  /** The reader pads every row to the sheet's column count. */
  predicate Rectangular(sheet: Sheet) {
    forall r :: 0 <= r < |sheet.rows| ==> |sheet.rows[r]| == sheet.ncols
  }

  /** `name.endswith(suffix)`. */
  predicate EndsWith(name: string, suffix: string) {
    |suffix| <= |name| && name[|name| - |suffix|..] == suffix
  }

  /** A name ends with `suffix` exactly when it is some string followed by `suffix`. */
  lemma EndsWithSpec(name: string, suffix: string)
    ensures EndsWith(name, suffix) <==> exists p :: p + suffix == name
  {
    if EndsWith(name, suffix) {
      var p := name[..|name| - |suffix|];
      assert p + suffix == name;
    }
    if p :| p + suffix == name {
      assert name[|name| - |suffix|..] == suffix;
    }
  }

  /** The sheets of `sheets` whose names end with `suffix`, in workbook order. */
  function EndingWith(sheets: seq<Sheet>, suffix: string): (kept: seq<Sheet>)
    ensures |kept| <= |sheets|
  {
    if sheets == [] then []
    else
      var last := sheets[|sheets| - 1];
      EndingWith(sheets[..|sheets| - 1], suffix) + (if EndsWith(last.name, suffix) then [last] else [])
  }

  /** A sheet is kept exactly when it is in the workbook and its name ends with the suffix. */
  lemma {:induction false} EndingWithMembers(sheets: seq<Sheet>, suffix: string)
    ensures forall s :: s in EndingWith(sheets, suffix) <==> s in sheets && EndsWith(s.name, suffix)
  {
    if sheets != [] {
      var init := sheets[..|sheets| - 1];
      EndingWithMembers(init, suffix);
      assert sheets == init + [sheets[|sheets| - 1]];
    }
  }

  lemma EndingWithSnoc(sheets: seq<Sheet>, i: int, suffix: string)
    requires 0 <= i < |sheets|
    ensures EndingWith(sheets[..i + 1], suffix)
      == EndingWith(sheets[..i], suffix) + (if EndsWith(sheets[i].name, suffix) then [sheets[i]] else [])
  {
    assert sheets[..i + 1][..i] == sheets[..i];
  }
}
