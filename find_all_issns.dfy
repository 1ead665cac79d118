/**
 * The whole-sheet script: one pool of ISSNs per sheet, with a count of
 * repeated tokens, each distinct ISSN looked up once, and a summary of how
 * many the registry knows and how many lookups failed.
 */
module FindAllIssns {
  import opened Collections
  import opened IssnPattern
  import opened Sheets
  import opened Doaj

  /**
   * `issns_from_sheet`: one row-major pass over the grid. A token already in
   * the set counts as a duplicate; any other token is added to the set.
   */
  method IssnsFromSheet(sheet: Sheet, toStr: Stringify) returns (issns: set<string>, duplicates: nat)
    requires Rectangular(sheet)
    ensures issns == Elements(SheetTokens(sheet.rows, toStr))
    ensures duplicates == |SheetTokens(sheet.rows, toStr)| - |issns|
    ensures forall x :: x in issns ==> IsIssn(x)
  {
    issns := {};
    duplicates := 0;
    var rows := sheet.rows;
    var r := 0;
    while r < |rows|
      invariant 0 <= r <= |rows|
      invariant issns == Elements(SheetTokens(rows[..r], toStr))
      invariant duplicates + |issns| == |SheetTokens(rows[..r], toStr)|
    {
      issns, duplicates := ScanRow(rows[r], sheet.ncols, toStr, SheetTokens(rows[..r], toStr), issns, duplicates);
      SheetTokensSnoc(rows, r, toStr);
      r := r + 1;
    }
    assert rows[..r] == rows;
    SheetTokensAreIssns(rows, toStr);
  }

  /**
   * The inner loop of `issns_from_sheet`, over the `ncols` cells of one row:
   * it extends the set and the counter from the tokens seen `before` the row
   * to the tokens seen up to its end.
   */
  method ScanRow(row: seq<Cell>, ncols: nat, toStr: Stringify, ghost before: seq<string>,
                 issns0: set<string>, duplicates0: nat)
    returns (issns: set<string>, duplicates: nat)
    requires |row| == ncols
    requires issns0 == Elements(before) && duplicates0 + |issns0| == |before|
    ensures issns == Elements(before + RowTokens(row, toStr))
    ensures duplicates + |issns| == |before + RowTokens(row, toStr)|
  {
    issns, duplicates := issns0, duplicates0;
    var c := 0;
    while c < ncols
      invariant 0 <= c <= ncols
      invariant issns == Elements(before + RowTokens(row[..c], toStr))
      invariant duplicates + |issns| == |before + RowTokens(row[..c], toStr)|
    {
      var token := CellToken(row[c], toStr);
      ghost var seen := before + RowTokens(row[..c], toStr);
      RecordStep(seen, token, issns, duplicates);
      if token.Some? {
        var v := token.value;
        if v in issns {
          duplicates := duplicates + 1;
        } else {
          issns := issns + {v};
        }
      }
      assert issns == Elements(seen + AsSeq(token)) && duplicates + |issns| == |seen + AsSeq(token)|;
      assert before + RowTokens(row[..c + 1], toStr) == seen + AsSeq(token) by {
        RowTokensSnoc(row, c, toStr);
      }
      c := c + 1;
    }
    assert row[..c] == row;
  }

  /** One cell's step of the scan keeps the set and the counter in line with the tokens seen. */
  lemma RecordStep(seen: seq<string>, token: Option<string>, issns: set<string>, duplicates: nat)
    requires issns == Elements(seen) && duplicates + |issns| == |seen|
    ensures token.None? ==> issns == Elements(seen + AsSeq(token)) && duplicates + |issns| == |seen + AsSeq(token)|
    ensures token.Some? && token.value in issns ==>
      issns == Elements(seen + AsSeq(token)) && duplicates + 1 + |issns| == |seen + AsSeq(token)|
    ensures token.Some? && token.value !in issns ==>
      issns + {token.value} == Elements(seen + AsSeq(token)) && duplicates + |issns + {token.value}| == |seen + AsSeq(token)|
  {
    ElementsAppend(seen, AsSeq(token));
    if token.Some? {
      assert Elements([token.value]) == {token.value};
    } else {
      assert seen + [] == seen;
    }
  }

  /** The three outcomes of a lookup: `True`, `False` and `None` in the script. */
  datatype LookupResult = Found | NotFound | Failed

  /**
   * `is_issn_in_doaj`: success with a non-zero count (`bool(int(count))`) is
   * Found, success with count 0 is NotFound, any other status is Failed.
   */
  function IsIssnInDoaj(oracle: Oracle, issn: string): (r: LookupResult)
    ensures r == Found <==> oracle(issn).status == StatusOk && oracle(issn).totalCount != 0
    ensures r == NotFound <==> oracle(issn).status == StatusOk && oracle(issn).totalCount == 0
    ensures r == Failed <==> oracle(issn).status != StatusOk
    ensures oracle(issn).totalCount >= 0 ==>
      (r == Found <==> oracle(issn).status == StatusOk && oracle(issn).totalCount >= 1)
  {
    var response := oracle(issn);
    if response.status == StatusOk then
      if response.totalCount != 0 then Found else NotFound
    else
      Failed
  }

  /** `[is_issn_in_doaj(i) for i in order]`. */
  function Results(order: seq<string>, oracle: Oracle): (results: seq<LookupResult>)
    ensures |results| == |order|
    ensures forall k :: 0 <= k < |order| ==> results[k] == IsIssnInDoaj(oracle, order[k])
  {
    seq(|order|, k requires 0 <= k < |order| => IsIssnInDoaj(oracle, order[k]))
  }

  /** `[r for r in results if r is not None]`. */
  function Answered(results: seq<LookupResult>): (answered: seq<LookupResult>)
    ensures Failed !in answered
    ensures forall x :: x in answered <==> x in results && x != Failed
    ensures |answered| + Occurrences(results, Failed) == |results|
  {
    if results == [] then []
    else (if results[0] == Failed then [] else [results[0]]) + Answered(results[1..])
  }

  /** `sum(...)` over a list of booleans: the number of `True` entries. */
  function SumTrue(results: seq<LookupResult>): (n: nat)
    ensures n == Occurrences(results, Found)
    ensures n <= |results|
    ensures n == 0 <==> Found !in results
  {
    if results == [] then 0
    else (if results[0] == Found then 1 else 0) + SumTrue(results[1..])
  }

  /** How many entries of `results` are `v`. */
  function Occurrences(results: seq<LookupResult>, v: LookupResult): nat {
    if results == [] then 0
    else (if results[0] == v then 1 else 0) + Occurrences(results[1..], v)
  }

  /**
   * Dropping the failures leaves everything else: the filtered list is as
   * long as the answered lookups, its sum is the number found, and every
   * result is of exactly one of the three kinds.
   */
  lemma {:induction false} AnsweredCounts(results: seq<LookupResult>)
    ensures |Answered(results)| + Occurrences(results, Failed) == |results|
    ensures SumTrue(Answered(results)) == Occurrences(results, Found)
    ensures Occurrences(results, Found) + Occurrences(results, NotFound) + Occurrences(results, Failed) == |results|
  {
    if results != [] {
      var rest := results[1..];
      AnsweredCounts(rest);
      if results[0] != Failed {
        var answered := Answered(results);
        assert answered == [results[0]] + Answered(rest);
        assert answered[0] == results[0] && answered[1..] == Answered(rest);
      } else {
        assert Answered(results) == [] + Answered(rest) == Answered(rest);
      }
    }
  }

  /** The counts `report_sheet` prints for one sheet. */
  datatype SheetSummary = SheetSummary(
    distinct: nat,       // len(issns)
    duplicates: nat,     // dups
    present: nat,        // sum(filtered_results)
    failed: nat,         // len(results) - len(filtered_results)
    failureShown: bool)  // whether the "search failed" line is printed

  /** The counting part of `report_sheet`, over the lookup results in list order. */
  function Summarise(distinct: nat, duplicates: nat, results: seq<LookupResult>): (s: SheetSummary)
    ensures s.distinct == distinct && s.duplicates == duplicates
    ensures s.present == Occurrences(results, Found)
    ensures s.failed == Occurrences(results, Failed)
    ensures s.present + Occurrences(results, NotFound) + s.failed == |results|
    ensures s.failureShown <==> s.failed > 0
  {
    var answered := Answered(results);
    AnsweredCounts(results);
    SheetSummary(distinct, duplicates, SumTrue(answered), |results| - |answered|, |answered| < |results|)
  }

  /** The ISSNs of `issns` whose lookup gives `v`. */
  function ResultSet(issns: set<string>, oracle: Oracle, v: LookupResult): set<string> {
    set i | i in issns && IsIssnInDoaj(oracle, i) == v
  }

  /**
   * Counting the results of a list without repetitions counts the set of its
   * elements: the order in which the set was listed does not matter.
   */
  lemma {:induction false} ResultsOrderFree(order: seq<string>, oracle: Oracle, v: LookupResult)
    requires Distinct(order)
    ensures Occurrences(Results(order, oracle), v) == |ResultSet(Elements(order), oracle, v)|
  {
    if order != [] {
      var rest := order[1..];
      assert Distinct(rest);
      ResultsOrderFree(rest, oracle, v);
      var results := Results(order, oracle);
      assert results[0] == IsIssnInDoaj(oracle, order[0]);
      assert results[1..] == Results(rest, oracle);
      assert order[0] !in Elements(rest);
      assert Elements(order) == Elements(rest) + {order[0]} by {
        assert order == [order[0]] + rest;
        ElementsAppend([order[0]], rest);
        assert Elements([order[0]]) == {order[0]};
      }
      ResultSetInsert(Elements(rest), order[0], oracle, v);
    }
  }

  lemma ResultSetInsert(issns: set<string>, x: string, oracle: Oracle, v: LookupResult)
    requires x !in issns
    ensures |ResultSet(issns + {x}, oracle, v)| == |ResultSet(issns, oracle, v)| + (if IsIssnInDoaj(oracle, x) == v then 1 else 0)
  {
    if IsIssnInDoaj(oracle, x) == v {
      assert ResultSet(issns + {x}, oracle, v) == ResultSet(issns, oracle, v) + {x};
    } else {
      assert ResultSet(issns + {x}, oracle, v) == ResultSet(issns, oracle, v);
    }
  }

  /** Every distinct ISSN is found, not found or failed, and only one of them. */
  lemma ResultPartition(issns: set<string>, oracle: Oracle)
    ensures |ResultSet(issns, oracle, Found)| + |ResultSet(issns, oracle, NotFound)|
          + |ResultSet(issns, oracle, Failed)| == |issns|
  {
    var f, n, x := ResultSet(issns, oracle, Found), ResultSet(issns, oracle, NotFound), ResultSet(issns, oracle, Failed);
    assert f * n == {};
    assert (f + n) * x == {};
    assert issns == f + n + x;
  }

  /**
   * What `report_sheet` reports for a sheet, stated on the set of distinct
   * tokens: how many there are, how many cells repeat one, how many the
   * registry knows, how many lookups failed, and whether the failure line
   * is printed.
   */
  function SummaryOf(sheet: Sheet, toStr: Stringify, oracle: Oracle): (s: SheetSummary)
    ensures s.present + |ResultSet(Elements(SheetTokens(sheet.rows, toStr)), oracle, NotFound)| + s.failed == s.distinct
    ensures s.present <= s.distinct && s.failed <= s.distinct
    ensures s.failureShown <==> s.failed > 0
  {
    var tokens := SheetTokens(sheet.rows, toStr);
    var issns := Elements(tokens);
    CardinalityBound(tokens);
    ResultPartition(issns, oracle);
    var failed := |ResultSet(issns, oracle, Failed)|;
    SheetSummary(|issns|, |tokens| - |issns|, |ResultSet(issns, oracle, Found)|, failed, failed > 0)
  }

  /** `report_sheet` for one sheet: scan, list the set, look every ISSN up, count. */
  method ReportSheet(sheet: Sheet, toStr: Stringify, oracle: Oracle) returns (summary: SheetSummary)
    requires Rectangular(sheet)
    ensures summary == SummaryOf(sheet, toStr, oracle)
  {
    var issns, dups := IssnsFromSheet(sheet, toStr);
    var order := Enumerate(issns);
    var results := Results(order, oracle);
    summary := Summarise(|issns|, dups, results);
    ResultsOrderFree(order, oracle, Found);
    ResultsOrderFree(order, oracle, Failed);
  }

  /** `sheet_names()[:1]`: the first sheet, if there is one. */
  function FirstSheet(sheets: seq<Sheet>): (first: seq<Sheet>)
    ensures |first| <= 1
    ensures |sheets| > 0 ==> first == [sheets[0]]
    ensures sheets == [] ==> first == []
  {
    if |sheets| <= 1 then sheets else sheets[..1]
  }

  /** The sheets the main program reports on: the first one, if its name ends with `suffix`. */
  function SelectSheets(sheets: seq<Sheet>, suffix: string): (selected: seq<Sheet>)
    ensures |selected| <= 1
    ensures selected != [] <==> |sheets| > 0 && EndsWith(sheets[0].name, suffix)
    ensures selected != [] ==> selected[0] == sheets[0]
  {
    var first := FirstSheet(sheets);
    var kept := EndingWith(first, suffix);
    assert kept != [] ==> kept[0] in kept;
    assert |sheets| > 0 ==> first == [sheets[0]];
    kept
  }

  /** One workbook's part of the main program: report on every selected sheet, in order. */
  method ReportWorkbook(sheets: seq<Sheet>, suffix: string, toStr: Stringify, oracle: Oracle)
    returns (reports: seq<SheetSummary>)
    requires forall s :: s in sheets ==> Rectangular(s)
    ensures |reports| == |SelectSheets(sheets, suffix)|
    ensures forall k :: 0 <= k < |reports| ==> reports[k] == SummaryOf(SelectSheets(sheets, suffix)[k], toStr, oracle)
  {
    var names := FirstSheet(sheets);
    reports := [];
    var i := 0;
    while i < |names|
      invariant 0 <= i <= |names|
      invariant |reports| == |EndingWith(names[..i], suffix)|
      invariant forall k :: 0 <= k < |reports| ==> reports[k] == SummaryOf(EndingWith(names[..i], suffix)[k], toStr, oracle)
    {
      EndingWithSnoc(names, i, suffix);
      if EndsWith(names[i].name, suffix) {
        assert names[i] in sheets;
        var report := ReportSheet(names[i], toStr, oracle);
        reports := reports + [report];
      }
      i := i + 1;
    }
    assert names[..i] == names;
  }

  const Suffix2016: string := "2016"
  const Suffix2017: string := "2017"

  /** The main program: the 2016 workbook's 2016 sheet, then the 2017 workbook's 2017 sheet. */
  method Run(workbook2016: seq<Sheet>, workbook2017: seq<Sheet>, toStr: Stringify, oracle: Oracle)
    returns (reports2016: seq<SheetSummary>, reports2017: seq<SheetSummary>)
    requires forall s :: s in workbook2016 ==> Rectangular(s)
    requires forall s :: s in workbook2017 ==> Rectangular(s)
    ensures |reports2016| <= 1 && |reports2017| <= 1
    ensures reports2016 != [] <==> |workbook2016| > 0 && EndsWith(workbook2016[0].name, Suffix2016)
    ensures reports2017 != [] <==> |workbook2017| > 0 && EndsWith(workbook2017[0].name, Suffix2017)
    ensures reports2016 != [] ==> reports2016[0] == SummaryOf(workbook2016[0], toStr, oracle)
    ensures reports2017 != [] ==> reports2017[0] == SummaryOf(workbook2017[0], toStr, oracle)
  {
    reports2016 := ReportWorkbook(workbook2016, Suffix2016, toStr, oracle);
    reports2017 := ReportWorkbook(workbook2017, Suffix2017, toStr, oracle);
  }

  /** The tokens of a four-cell row, cell by cell. */
  lemma FourCellRow(row: seq<Cell>, toStr: Stringify)
    requires |row| == 4
    ensures RowTokens(row, toStr)
      == AsSeq(CellToken(row[0], toStr)) + AsSeq(CellToken(row[1], toStr)) + AsSeq(CellToken(row[2], toStr)) + AsSeq(CellToken(row[3], toStr))
  {
    var t0, t1, t2, t3 := AsSeq(CellToken(row[0], toStr)), AsSeq(CellToken(row[1], toStr)),
                          AsSeq(CellToken(row[2], toStr)), AsSeq(CellToken(row[3], toStr));
    assert RowTokens(row[..1], toStr) == t0 by {
      assert row[..0] == [];
      RowTokensSnoc(row, 0, toStr);
    }
    assert RowTokens(row[..2], toStr) == t0 + t1 by { RowTokensSnoc(row, 1, toStr); }
    assert RowTokens(row[..3], toStr) == t0 + t1 + t2 by { RowTokensSnoc(row, 2, toStr); }
    assert RowTokens(row[..4], toStr) == t0 + t1 + t2 + t3 by { RowTokensSnoc(row, 3, toStr); }
    assert row[..4] == row;
  }

  /**
   * A sheet whose first row holds the same ISSN twice and a cell that is no
   * ISSN, followed by an empty row: one distinct ISSN, one duplicate, and
   * it is present when the registry reports one match for it.
   */
  lemma DuplicateInRowExample(name: string, a: string, other: Cell, toStr: Stringify, oracle: Oracle)
    requires IsIssn(a) && CellToken(other, toStr) == None
    requires oracle(a) == Response(StatusOk, 1)
    ensures SummaryOf(Sheet(name, [[Text(a), Text(a), other, Empty], [Empty, Empty, Empty, Empty]], 4), toStr, oracle)
         == SheetSummary(1, 1, 1, 0, false)
  {
    DuplicateInRowTokens(a, other, toStr);
    var issns := Elements([a, a]);
    assert issns == {a};
    assert ResultSet(issns, oracle, Found) == {a};
    assert ResultSet(issns, oracle, Failed) == {};
  }

  lemma DuplicateInRowTokens(a: string, other: Cell, toStr: Stringify)
    requires IsIssn(a) && CellToken(other, toStr) == None
    ensures SheetTokens([[Text(a), Text(a), other, Empty], [Empty, Empty, Empty, Empty]], toStr) == [a, a]
  {
    var rows: seq<seq<Cell>> := [[Text(a), Text(a), other, Empty], [Empty, Empty, Empty, Empty]];
    DuplicateRowTokens(a, other, toStr);
    BlankRowTokens(toStr);
    assert SheetTokens(rows[..1], toStr) == [a, a] by {
      assert rows[..0] == [];
      SheetTokensSnoc(rows, 0, toStr);
    }
    assert SheetTokens(rows[..2], toStr) == [a, a] by { SheetTokensSnoc(rows, 1, toStr); }
    assert rows[..2] == rows;
  }

  lemma DuplicateRowTokens(a: string, other: Cell, toStr: Stringify)
    requires IsIssn(a) && CellToken(other, toStr) == None
    ensures RowTokens([Text(a), Text(a), other, Empty], toStr) == [a, a]
  {
    IssnTextIsToken(a, toStr);
    FourCellRow([Text(a), Text(a), other, Empty], toStr);
  }

  lemma BlankRowTokens(toStr: Stringify)
    ensures RowTokens([Empty, Empty, Empty, Empty], toStr) == []
  {
    FourCellRow([Empty, Empty, Empty, Empty], toStr);
  }

  /** `0001-0002X` has ten characters, so the pattern rejects it and the cell yields no token. */
  lemma NearMissCellToken(toStr: Stringify)
    ensures CellToken(Text("0001-0002X"), toStr) == None
  {
    NearMissesRejected();
    NonIssnTextIsNoToken("0001-0002X", toStr);
  }

  /**
   * Set identity is the exact stripped string: two cells holding different
   * spellings of what may be the same ISSN (another case of `x`, with or
   * without the hyphen) give two distinct ISSNs and no duplicate.
   */
  lemma SpellingsAreDistinct(name: string, a: string, b: string, toStr: Stringify, oracle: Oracle)
    requires IsIssn(a) && IsIssn(b) && a != b
    ensures var s := SummaryOf(Sheet(name, [[Text(a), Text(b)]], 2), toStr, oracle);
      s.distinct == 2 && s.duplicates == 0
  {
    SpellingTokens(a, b, toStr);
    assert Elements([a, b]) == {a, b};
  }

  lemma SpellingTokens(a: string, b: string, toStr: Stringify)
    requires IsIssn(a) && IsIssn(b)
    ensures SheetTokens([[Text(a), Text(b)]], toStr) == [a, b]
  {
    IssnTextIsToken(a, toStr);
    IssnTextIsToken(b, toStr);
    TwoCellRow([Text(a), Text(b)], toStr);
    OneRowSheet([[Text(a), Text(b)]], toStr);
  }

  /**
   * IGNORECASE only affects matching: a row holding `1234-567x` and
   * `1234-567X` reports two distinct ISSNs and no duplicate.
   */
  lemma CaseOfCheckCharacterKept(name: string, toStr: Stringify, oracle: Oracle)
    ensures var s := SummaryOf(Sheet(name, [[Text("1234-567x"), Text("1234-567X")]], 2), toStr, oracle);
      s.distinct == 2 && s.duplicates == 0
  {
    AcceptsLowerCaseX();
    AcceptsUpperCaseX();
    assert "1234-567x" != "1234-567X" by {
      assert "1234-567x"[8] != "1234-567X"[8];
    }
    SpellingsAreDistinct(name, "1234-567x", "1234-567X", toStr, oracle);
  }
}
