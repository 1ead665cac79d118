/**
 * The per-row script: one journal per row. Every row gets its own set of
 * ISSNs; a row holding at least one contributes the number of its ISSNs the
 * registry knows, and the sheet's report counts the rows known by two, by
 * one and by none of their ISSNs. A failed lookup counts as not found.
 */
module FindIssnsByRow {
  import opened Collections
  import opened IssnPattern
  import opened Sheets
  import opened Doaj
  import FindAllIssns

  /**
   * `is_issn_in_doaj` of this script: success with a non-zero count is
   * `True`; success with count 0 and every other status are `False`.
   */
  function IsIssnInDoaj(oracle: Oracle, issn: string): (found: bool)
    ensures found <==> oracle(issn).status == StatusOk && oracle(issn).totalCount != 0
    ensures oracle(issn).totalCount >= 0 ==>
      (found <==> oracle(issn).status == StatusOk && oracle(issn).totalCount >= 1)
  {
    var response := oracle(issn);
    if response.status == StatusOk then response.totalCount != 0 else false
  }

  /**
   * The two scripts' lookups agree on Found; a lookup the whole-sheet script
   * reports as Failed is, here, simply not found.
   */
  lemma FailureCountsAsNotFound(oracle: Oracle, issn: string)
    ensures IsIssnInDoaj(oracle, issn) <==> FindAllIssns.IsIssnInDoaj(oracle, issn) == FindAllIssns.Found
    ensures FindAllIssns.IsIssnInDoaj(oracle, issn) == FindAllIssns.Failed ==> !IsIssnInDoaj(oracle, issn)
  {
  }

  /** The distinct tokens of one row: the set built for that row alone. */
  function RowSet(row: seq<Cell>, toStr: Stringify): set<string> {
    Elements(RowTokens(row, toStr))
  }

  /** The ISSNs of `issns` the registry knows. */
  function FoundIn(issns: set<string>, oracle: Oracle): set<string> {
    set i | i in issns && IsIssnInDoaj(oracle, i)
  }

  /** `sum([is_issn_in_doaj(i) for i in order])`. */
  function RowSum(order: seq<string>, oracle: Oracle): (n: nat)
    ensures n <= |order|
  {
    if order == [] then 0
    else (if IsIssnInDoaj(oracle, order[0]) then 1 else 0) + RowSum(order[1..], oracle)
  }

  /**
   * The sum over a list without repetitions is the number of its elements
   * the registry knows: the order in which the row's set was listed does not
   * matter.
   */
  lemma {:induction false} RowSumOrderFree(order: seq<string>, oracle: Oracle)
    requires Distinct(order)
    ensures RowSum(order, oracle) == |FoundIn(Elements(order), oracle)|
  {
    if order != [] {
      var rest := order[1..];
      assert Distinct(rest);
      RowSumOrderFree(rest, oracle);
      assert order[0] !in Elements(rest);
      assert Elements(order) == Elements(rest) + {order[0]} by {
        assert order == [order[0]] + rest;
        ElementsAppend([order[0]], rest);
        assert Elements([order[0]]) == {order[0]};
      }
      FoundInInsert(Elements(rest), order[0], oracle);
    }
  }

  lemma FoundInInsert(issns: set<string>, x: string, oracle: Oracle)
    requires x !in issns
    ensures |FoundIn(issns + {x}, oracle)| == |FoundIn(issns, oracle)| + (if IsIssnInDoaj(oracle, x) then 1 else 0)
  {
    if IsIssnInDoaj(oracle, x) {
      assert FoundIn(issns + {x}, oracle) == FoundIn(issns, oracle) + {x};
    } else {
      assert FoundIn(issns + {x}, oracle) == FoundIn(issns, oracle);
    }
  }

  /**
   * The list `issns_from_sheet_by_row` returns: one entry for every row
   * whose set is not empty, in row order, skipping the other rows.
   */
  function RowEntries(rows: seq<seq<Cell>>, toStr: Stringify, oracle: Oracle): (c: seq<nat>)
    ensures |c| <= |rows|
  {
    if rows == [] then []
    else RowEntries(rows[..|rows| - 1], toStr, oracle) + RowEntry(rows[|rows| - 1], toStr, oracle)
  }

  /** What one row adds to that list: its count, or nothing when it holds no ISSN. */
  function RowEntry(row: seq<Cell>, toStr: Stringify, oracle: Oracle): seq<nat> {
    if RowSet(row, toStr) != {} then [|FoundIn(RowSet(row, toStr), oracle)|] else []
  }

  lemma RowEntriesSnoc(rows: seq<seq<Cell>>, r: int, toStr: Stringify, oracle: Oracle)
    requires 0 <= r < |rows|
    ensures RowEntries(rows[..r + 1], toStr, oracle) == RowEntries(rows[..r], toStr, oracle) + RowEntry(rows[r], toStr, oracle)
  {
    assert rows[..r + 1][..r] == rows[..r];
  }

  /** Scanning one more cell of a row adds that cell's token, if any, to the row's set. */
  lemma AddStep(row: seq<Cell>, c: int, toStr: Stringify)
    requires 0 <= c < |row|
    ensures var token := CellToken(row[c], toStr);
      RowSet(row[..c + 1], toStr) == RowSet(row[..c], toStr) + (if token.Some? then {token.value} else {})
  {
    var token := CellToken(row[c], toStr);
    RowTokensSnoc(row, c, toStr);
    ElementsAppend(RowTokens(row[..c], toStr), AsSeq(token));
    assert Elements(AsSeq(token)) == if token.Some? then {token.value} else {};
  }

  /**
   * `issns_from_sheet_by_row`: for every row a fresh set, filled from that
   * row's cells; a row with one ISSN or more appends the sum of its lookups.
   */
  method IssnsFromSheetByRow(sheet: Sheet, toStr: Stringify, oracle: Oracle) returns (counts: seq<nat>)
    requires Rectangular(sheet)
    ensures counts == RowEntries(sheet.rows, toStr, oracle)
  {
    counts := [];
    var rows := sheet.rows;
    var r := 0;
    while r < |rows|
      invariant 0 <= r <= |rows|
      invariant counts == RowEntries(rows[..r], toStr, oracle)
    {
      var issns: set<string> := {};
      var c := 0;
      while c < sheet.ncols
        invariant 0 <= c <= sheet.ncols
        invariant issns == RowSet(rows[r][..c], toStr)
      {
        var token := CellToken(rows[r][c], toStr);
        AddStep(rows[r], c, toStr);
        if token.Some? {
          issns := issns + {token.value};
        }
        c := c + 1;
      }
      assert rows[r][..c] == rows[r];
      RowEntriesSnoc(rows, r, toStr, oracle);
      if |issns| > 0 {
        var order := Enumerate(issns);
        RowSumOrderFree(order, oracle);
        counts := counts + [RowSum(order, oracle)];
      }
      r := r + 1;
    }
    assert rows[..r] == rows;
  }

  /** The indices of the rows whose set is not empty, in increasing order. */
  function BearingRows(rows: seq<seq<Cell>>, toStr: Stringify): seq<nat> {
    if rows == [] then []
    else
      var last := |rows| - 1;
      BearingRows(rows[..last], toStr) + (if RowSet(rows[last], toStr) != {} then [last] else [])
  }

  /**
   * The ISSN-bearing rows are listed once each, in increasing order, and a
   * row is listed exactly when it holds an ISSN.
   */
  lemma BearingRowsSpec(rows: seq<seq<Cell>>, toStr: Stringify)
    ensures var b := BearingRows(rows, toStr);
      && (forall k :: 0 <= k < |b| ==> b[k] < |rows|)
      && (forall k, l :: 0 <= k < l < |b| ==> b[k] < b[l])
      && (forall r :: 0 <= r < |rows| ==> (r in b <==> RowSet(rows[r], toStr) != {}))
  {
    BearingRowsOrdered(rows, toStr);
    BearingRowsMembers(rows, toStr);
  }

  /** The listed indices are in bounds and strictly increasing. */
  lemma {:induction false} BearingRowsOrdered(rows: seq<seq<Cell>>, toStr: Stringify)
    ensures forall k :: 0 <= k < |BearingRows(rows, toStr)| ==> BearingRows(rows, toStr)[k] < |rows|
    ensures forall k, l :: 0 <= k < l < |BearingRows(rows, toStr)| ==> BearingRows(rows, toStr)[k] < BearingRows(rows, toStr)[l]
  {
    if rows != [] {
      var last := |rows| - 1;
      var b0 := BearingRows(rows[..last], toStr);
      BearingRowsOrdered(rows[..last], toStr);
      assert forall k :: 0 <= k < |b0| ==> b0[k] < last;
      var b := BearingRows(rows, toStr);
      assert b == b0 + (if RowSet(rows[last], toStr) != {} then [last] else []);
      assert forall k :: 0 <= k < |b| ==> b[k] == if k < |b0| then b0[k] else last;
    }
  }

  /** A row is listed exactly when its set is not empty. */
  lemma BearingRowsMembers(rows: seq<seq<Cell>>, toStr: Stringify)
    ensures forall r :: 0 <= r < |rows| ==> (r in BearingRows(rows, toStr) <==> RowSet(rows[r], toStr) != {})
  {
    forall r | 0 <= r < |rows|
      ensures r in BearingRows(rows, toStr) <==> RowSet(rows[r], toStr) != {}
    {
      RowListed(rows, toStr, r);
    }
  }

  /** Row `r` is listed exactly when its set is not empty. */
  lemma {:induction false} RowListed(rows: seq<seq<Cell>>, toStr: Stringify, r: int)
    requires 0 <= r < |rows|
    ensures r in BearingRows(rows, toStr) <==> RowSet(rows[r], toStr) != {}
  {
    var last := |rows| - 1;
    if r < last {
      var init := rows[..last];
      RowListed(init, toStr, r);
      assert init[r] == rows[r];
      EarlierRowListed(rows, toStr, r);
    } else {
      LastRowListed(rows, toStr);
    }
  }

  /** A row before the last is listed for the whole grid exactly when it is listed for the grid without the last row. */
  lemma EarlierRowListed(rows: seq<seq<Cell>>, toStr: Stringify, r: int)
    requires 0 <= r < |rows| - 1
    ensures r in BearingRows(rows, toStr) <==> r in BearingRows(rows[..|rows| - 1], toStr)
  {
    var last := |rows| - 1;
    var b0 := BearingRows(rows[..last], toStr);
    if RowSet(rows[last], toStr) != {} {
      assert BearingRows(rows, toStr) == b0 + [last];
      NotAppended(b0, last, r);
    } else {
      assert BearingRows(rows, toStr) == b0;
    }
  }

  /** The last row is listed exactly when its set is not empty. */
  lemma LastRowListed(rows: seq<seq<Cell>>, toStr: Stringify)
    requires rows != []
    ensures |rows| - 1 in BearingRows(rows, toStr) <==> RowSet(rows[|rows| - 1], toStr) != {}
  {
    var last := |rows| - 1;
    var b0 := BearingRows(rows[..last], toStr);
    BearingRowsOrdered(rows[..last], toStr);
    assert last !in b0;
    if RowSet(rows[last], toStr) != {} {
      assert BearingRows(rows, toStr) == b0 + [last];
    } else {
      assert BearingRows(rows, toStr) == b0;
    }
  }

  lemma NotAppended(b: seq<nat>, last: nat, r: int)
    requires r != last
    ensures r in b + [last] <==> r in b
  {
  }

  /**
   * Entry `k` of the result belongs to the `k`-th ISSN-bearing row: it is the
   * number of that row's own distinct ISSNs that the registry knows, so it
   * depends on no other row.
   */
  lemma {:induction false} RowEntriesByRow(rows: seq<seq<Cell>>, toStr: Stringify, oracle: Oracle)
    ensures var b := BearingRows(rows, toStr);
      var e := RowEntries(rows, toStr, oracle);
      && |e| == |b|
      && (forall k :: 0 <= k < |e| ==> b[k] < |rows| && e[k] == |FoundIn(RowSet(rows[b[k]], toStr), oracle)|)
  {
    if rows != [] {
      var last := |rows| - 1;
      var init := rows[..last];
      RowEntriesByRow(init, toStr, oracle);
      BearingRowsSpec(init, toStr);
      assert forall r :: 0 <= r < last ==> init[r] == rows[r];
    }
  }

  /** Every entry is at most the size of its row's set, which is at most the column count. */
  lemma EntryBounds(sheet: Sheet, toStr: Stringify, oracle: Oracle)
    requires Rectangular(sheet)
    ensures var b := BearingRows(sheet.rows, toStr);
      var e := RowEntries(sheet.rows, toStr, oracle);
      && |e| == |b|
      && forall k :: 0 <= k < |e| ==>
           b[k] < |sheet.rows| && e[k] <= |RowSet(sheet.rows[b[k]], toStr)| <= sheet.ncols
  {
    var b := BearingRows(sheet.rows, toStr);
    var e := RowEntries(sheet.rows, toStr, oracle);
    RowEntriesByRow(sheet.rows, toStr, oracle);
    forall k | 0 <= k < |e|
      ensures b[k] < |sheet.rows| && e[k] <= |RowSet(sheet.rows[b[k]], toStr)| <= sheet.ncols
    {
      var row := sheet.rows[b[k]];
      SubsetCardinality(FoundIn(RowSet(row, toStr), oracle), RowSet(row, toStr));
      CardinalityBound(RowTokens(row, toStr));
    }
  }

  /** `c.count(v)`. */
  function CountOf(c: seq<nat>, v: nat): nat {
    if c == [] then 0
    else (if c[0] == v then 1 else 0) + CountOf(c[1..], v)
  }

  /** `c.count(v)` is at most `len(c)`; it is 0 iff `v` does not occur, and `len(c)` iff every entry is `v`. */
  lemma {:induction false} CountOfSpec(c: seq<nat>, v: nat)
    ensures CountOf(c, v) <= |c|
    ensures CountOf(c, v) == 0 <==> v !in c
    ensures CountOf(c, v) == |c| <==> forall k :: 0 <= k < |c| ==> c[k] == v
  {
    if c != [] {
      CountOfSpec(c[1..], v);
      assert c == [c[0]] + c[1..];
      assert forall k :: 1 <= k < |c| ==> c[k] == c[1..][k - 1];
    }
  }

  /** The number of entries above `v`. */
  function CountAbove(c: seq<nat>, v: nat): nat {
    if c == [] then 0
    else (if c[0] > v then 1 else 0) + CountAbove(c[1..], v)
  }

  /** Every entry is 0, 1, 2 or more than 2. */
  lemma {:induction false} TallyPartition(c: seq<nat>)
    ensures CountOf(c, 2) + CountOf(c, 1) + CountOf(c, 0) + CountAbove(c, 2) == |c|
  {
    if c != [] {
      TallyPartition(c[1..]);
    }
  }

  /** No entry exceeds `v` exactly when none is counted above it. */
  lemma {:induction false} NoneAbove(c: seq<nat>, v: nat)
    ensures CountAbove(c, v) == 0 <==> forall k :: 0 <= k < |c| ==> c[k] <= v
  {
    if c != [] {
      NoneAbove(c[1..], v);
      assert forall k :: 1 <= k < |c| ==> c[k] == c[1..][k - 1];
    }
  }

  /** The counts `report_sheet` prints for one sheet. */
  datatype RowSummary = RowSummary(
    rowsWithIssns: nat,   // len(c)
    foundByBoth: nat,     // c.count(2)
    foundByOne: nat,      // c.count(1)
    foundByNeither: nat)  // c.count(0)

  /**
   * The tallies of `report_sheet`: rows found by 3 or more ISSNs fall in
   * none of the three counts, so the three add up to the number of rows
   * exactly when no entry exceeds 2.
   */
  function Tally(c: seq<nat>): (t: RowSummary)
    ensures t.rowsWithIssns == |c|
    ensures t.foundByBoth + t.foundByOne + t.foundByNeither + CountAbove(c, 2) == |c|
  {
    TallyPartition(c);
    RowSummary(|c|, CountOf(c, 2), CountOf(c, 1), CountOf(c, 0))
  }

  /** The three tallies cover every ISSN-bearing row exactly when no row was found by more than two ISSNs. */
  lemma TallyComplete(c: seq<nat>)
    ensures var t := Tally(c);
      t.foundByBoth + t.foundByOne + t.foundByNeither == |c| <==> forall k :: 0 <= k < |c| ==> c[k] <= 2
  {
    NoneAbove(c, 2);
  }

  /** What `report_sheet` reports for a sheet. */
  function RowSummaryOf(sheet: Sheet, toStr: Stringify, oracle: Oracle): RowSummary {
    Tally(RowEntries(sheet.rows, toStr, oracle))
  }

  /** `report_sheet` for one sheet: scan row by row, then tally. */
  method ReportSheet(sheet: Sheet, toStr: Stringify, oracle: Oracle) returns (summary: RowSummary)
    requires Rectangular(sheet)
    ensures summary == RowSummaryOf(sheet, toStr, oracle)
  {
    var c := IssnsFromSheetByRow(sheet, toStr, oracle);
    summary := Tally(c);
  }

  /**
   * On a sheet of at most two columns no row can hold three ISSNs, so every
   * ISSN-bearing row is counted in exactly one of the three tallies.
   */
  lemma NarrowSheetFullyTallied(sheet: Sheet, toStr: Stringify, oracle: Oracle)
    requires Rectangular(sheet) && sheet.ncols <= 2
    ensures var t := RowSummaryOf(sheet, toStr, oracle);
      t.foundByBoth + t.foundByOne + t.foundByNeither == t.rowsWithIssns
  {
    EntryBounds(sheet, toStr, oracle);
    var e := RowEntries(sheet.rows, toStr, oracle);
    assert forall k :: 0 <= k < |e| ==> e[k] <= 2;
    TallyComplete(e);
  }

  /** One workbook's part of the main program: report on every sheet whose name ends with `suffix`, in order. */
  method ReportWorkbook(sheets: seq<Sheet>, suffix: string, toStr: Stringify, oracle: Oracle)
    returns (reports: seq<RowSummary>)
    requires forall s :: s in sheets ==> Rectangular(s)
    ensures |reports| == |EndingWith(sheets, suffix)|
    ensures forall k :: 0 <= k < |reports| ==> reports[k] == RowSummaryOf(EndingWith(sheets, suffix)[k], toStr, oracle)
  {
    ghost var summarise := (s: Sheet) => RowSummaryOf(s, toStr, oracle);
    reports := [];
    var i := 0;
    while i < |sheets|
      invariant 0 <= i <= |sheets|
      invariant reports == MapSeq(summarise, EndingWith(sheets[..i], suffix))
    {
      ghost var kept := EndingWith(sheets[..i], suffix);
      EndingWithSnoc(sheets, i, suffix);
      if EndsWith(sheets[i].name, suffix) {
        assert sheets[i] in sheets;
        var report := ReportSheet(sheets[i], toStr, oracle);
        assert report == summarise(sheets[i]);
        assert EndingWith(sheets[..i + 1], suffix) == kept + [sheets[i]];
        MapSeqSnoc(summarise, kept, sheets[i]);
        reports := reports + [report];
      } else {
        assert EndingWith(sheets[..i + 1], suffix) == kept;
      }
      i := i + 1;
    }
    assert sheets[..i] == sheets;
    MapSeqSpec(summarise, EndingWith(sheets, suffix));
  }

  const Suffix2016: string := "2016"
  const Suffix2017: string := "2017"

  /** The main program: every 2016 sheet of the first workbook, then every 2017 sheet of the second. */
  method Run(workbook2016: seq<Sheet>, workbook2017: seq<Sheet>, toStr: Stringify, oracle: Oracle)
    returns (reports2016: seq<RowSummary>, reports2017: seq<RowSummary>)
    requires forall s :: s in workbook2016 ==> Rectangular(s)
    requires forall s :: s in workbook2017 ==> Rectangular(s)
    ensures |reports2016| == |EndingWith(workbook2016, Suffix2016)|
    ensures |reports2017| == |EndingWith(workbook2017, Suffix2017)|
    ensures forall k :: 0 <= k < |reports2016| ==>
      reports2016[k] == RowSummaryOf(EndingWith(workbook2016, Suffix2016)[k], toStr, oracle)
    ensures forall k :: 0 <= k < |reports2017| ==>
      reports2017[k] == RowSummaryOf(EndingWith(workbook2017, Suffix2017)[k], toStr, oracle)
  {
    reports2016 := ReportWorkbook(workbook2016, Suffix2016, toStr, oracle);
    reports2017 := ReportWorkbook(workbook2017, Suffix2017, toStr, oracle);
  }

  /**
   * A two-column sheet: a row with two different ISSNs the registry knows,
   * a row holding one known ISSN in both columns, and an empty row. The
   * repeated ISSN counts once, so the rows tally as one found by both and
   * one found by one; the empty row is not counted.
   */
  lemma TwoColumnExample(name: string, a: string, b: string, c: string, toStr: Stringify, oracle: Oracle)
    requires IsIssn(a) && IsIssn(b) && IsIssn(c) && a != b
    requires IsIssnInDoaj(oracle, a) && IsIssnInDoaj(oracle, b) && IsIssnInDoaj(oracle, c)
    ensures RowSummaryOf(Sheet(name, [[Text(a), Text(b)], [Text(c), Text(c)], [Empty, Empty]], 2), toStr, oracle)
         == RowSummary(2, 1, 1, 0)
  {
    TwoColumnEntries(a, b, c, toStr, oracle);
    TallyTwoOne();
  }

  lemma TallyTwoOne()
    ensures Tally([2, 1]) == RowSummary(2, 1, 1, 0)
  {
    var e: seq<nat> := [2, 1];
    assert e[1..] == [1];
    assert e[1..][1..] == [];
  }

  lemma TwoColumnEntries(a: string, b: string, c: string, toStr: Stringify, oracle: Oracle)
    requires IsIssn(a) && IsIssn(b) && IsIssn(c) && a != b
    requires IsIssnInDoaj(oracle, a) && IsIssnInDoaj(oracle, b) && IsIssnInDoaj(oracle, c)
    ensures RowEntries([[Text(a), Text(b)], [Text(c), Text(c)], [Empty, Empty]], toStr, oracle) == [2, 1]
  {
    BlankPairRow(toStr);
    PairRowEntry(a, b, toStr, oracle);
    RepeatRowEntry(c, toStr, oracle);
    assert RowEntry([Empty, Empty], toStr, oracle) == [];
    ThreeRows([[Text(a), Text(b)], [Text(c), Text(c)], [Empty, Empty]], toStr, oracle);
  }

  lemma PairRowEntry(a: string, b: string, toStr: Stringify, oracle: Oracle)
    requires IsIssn(a) && IsIssn(b) && a != b
    requires IsIssnInDoaj(oracle, a) && IsIssnInDoaj(oracle, b)
    ensures RowEntry([Text(a), Text(b)], toStr, oracle) == [2]
  {
    PairRowSet(a, b, toStr);
    AllFound({a, b}, oracle);
    var found := FoundIn(RowSet([Text(a), Text(b)], toStr), oracle);
    assert found == {a, b};
    assert |found| == 2;
  }

  lemma PairRowSet(a: string, b: string, toStr: Stringify)
    requires IsIssn(a) && IsIssn(b)
    ensures RowSet([Text(a), Text(b)], toStr) == {a, b}
  {
    IssnTextIsToken(a, toStr);
    IssnTextIsToken(b, toStr);
    TwoCellRow([Text(a), Text(b)], toStr);
  }

  lemma RepeatRowEntry(c: string, toStr: Stringify, oracle: Oracle)
    requires IsIssn(c) && IsIssnInDoaj(oracle, c)
    ensures RowEntry([Text(c), Text(c)], toStr, oracle) == [1]
  {
    IssnTextIsToken(c, toStr);
    TwoCellRow([Text(c), Text(c)], toStr);
    assert RowSet([Text(c), Text(c)], toStr) == {c};
    AllFound({c}, oracle);
  }

  lemma AllFound(issns: set<string>, oracle: Oracle)
    requires forall i :: i in issns ==> IsIssnInDoaj(oracle, i)
    ensures FoundIn(issns, oracle) == issns
  {
  }

  /** The list for a three-row grid, row by row. */
  lemma ThreeRows(rows: seq<seq<Cell>>, toStr: Stringify, oracle: Oracle)
    requires |rows| == 3
    ensures RowEntries(rows, toStr, oracle)
      == RowEntry(rows[0], toStr, oracle) + RowEntry(rows[1], toStr, oracle) + RowEntry(rows[2], toStr, oracle)
  {
    var e0, e1, e2 := RowEntry(rows[0], toStr, oracle), RowEntry(rows[1], toStr, oracle), RowEntry(rows[2], toStr, oracle);
    assert RowEntries(rows[..1], toStr, oracle) == e0 by {
      assert rows[..0] == [];
      RowEntriesSnoc(rows, 0, toStr, oracle);
    }
    assert RowEntries(rows[..2], toStr, oracle) == e0 + e1 by { RowEntriesSnoc(rows, 1, toStr, oracle); }
    assert RowEntries(rows[..3], toStr, oracle) == e0 + e1 + e2 by { RowEntriesSnoc(rows, 2, toStr, oracle); }
    assert rows[..3] == rows;
  }

  lemma BlankPairRow(toStr: Stringify)
    ensures RowSet([Empty, Empty], toStr) == {}
  {
    TwoCellRow([Empty, Empty], toStr);
  }
}
