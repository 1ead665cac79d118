# ISSN extraction and DOAJ tallies, modelled in Dafny

Two scripts read the accredited-journal workbooks of 2016 and 2017, pick out every ISSN in a sheet and ask the DOAJ journal search about each one:

- `issn_find/find_all_issns.py` looks at a whole sheet. It collects the distinct ISSNs of the sheet, counts the cells that repeat an ISSN already seen, looks every distinct ISSN up, and reports how many are present, how many lookups failed, and whether to print the failure line.
- `issn_find/find_issns_by_row.py` reads one journal per row. For every row holding at least one ISSN it counts how many of that row's distinct ISSNs the DOAJ knows, then tallies the rows found by both ISSNs, by one and by neither.

The model has six modules:

- `Collections`: Option, distinctness of a list, the set of a list's elements, mapping a function over a list, and `list(set)` as a method that promises no order.
- `IssnPattern`: the compiled pattern `^\d{4}-?\d{3}(\d|x)$` with IGNORECASE. Both scripts use the same pattern (`find_issns_by_row.py:11`). The pattern is written as piecewise consumers, the way the regular-expression engine takes its input. It includes the behaviour of Python's `$`, which also matches before a final newline. Lemmas relate it to a position-by-position description of the accepted shapes.
- `Sheets`: cells, `strip()`, the normalisation both scripts apply to a cell, and the row-major token sequences of a grid. A sheet is a name plus a grid of `nrows` rows of `ncols` cells. It also has the workbook filter on sheet names.
- `Doaj`: the registry as an oracle from the queried ISSN to a response `(status, x-total-count)`.
- `FindAllIssns` and `FindIssnsByRow`: one module per script.

The two nested scan loops are methods with loop invariants, proved against functions that give the token sequence of a grid: `issns_from_sheet` and `issns_from_sheet_by_row`. Each top-level report is proved equal to a value computed on sets: `report_sheet`, and the main program's loop over sheets. The lemmas then state what the scripts promise about those values:
- the counting identities;
- independence from the order in which Python lists a set;
- the per-row structure of the by-row output;
- the tallies.

The model follows the code:
- `0001-0002X` has ten characters, so the pattern rejects it (`FindAllIssns.NearMissCellToken`).
- The set of ISSNs is keyed on the exact stripped string. `1234-567x`, `1234-567X` and `1234567X` are three different ISSNs, and none of them is a duplicate of another (`FindAllIssns.SpellingsAreDistinct`, `FindAllIssns.CaseOfCheckCharacterKept`).

## Model

| member | source | states |
|---|---|---|
| IssnPattern.Digits | issn_find/find_all_issns.py:8 | `\d{n}` succeeds exactly when the first `n` characters are ASCII digits, and leaves the rest of the string |
| IssnPattern.AfterPattern | issn_find/find_all_issns.py:8 | the anchored pattern, when it matches, consumes a non-empty prefix and leaves a suffix of the input |
| IssnPattern.IsIssnIffShape | issn_find/find_all_issns.py:8 | a string is an ISSN for the pattern iff it is 7 digits and a check character (8 chars), or 4 digits, `-`, 3 digits and a check character (9 chars) |
| IssnPattern.IssnAlphabet | issn_find/find_all_issns.py:8 | an accepted token has 8 or 9 characters, all ASCII digits except one hyphen at index 4 of a 9-character token, and only the last may be `x`/`X` |
| IssnPattern.MatchWithoutFinalNewline | issn_find/find_all_issns.py:8 | on a string not ending in a newline, `re.match` with the pattern accepts exactly the ISSN tokens |
| IssnPattern.FinalNewlineQuirk | issn_find/find_all_issns.py:8 | `$` lets `re.match` accept `12345678\n`, which is no whole-string ISSN |
| IssnPattern.CheckCharacterNotVerified | issn_find/find_all_issns.py:8 | syntax only: replacing the check character of an accepted token by any digit, `x` or `X` gives an accepted token |
| IssnPattern.WrongCheckDigitAccepted | issn_find/find_all_issns.py:8 | `1234-5678`, whose ISO 3297 check digit is wrong, is accepted |
| IssnPattern.NearMissesRejected | issn_find/find_all_issns.py:8 | a doubled hyphen, a tenth character and a misplaced hyphen are rejected |
| IssnPattern.AcceptsLowerCaseX | issn_find/find_all_issns.py:8 | IGNORECASE: `1234-567x` is accepted |
| IssnPattern.AcceptsUpperCaseX | issn_find/find_all_issns.py:8 | `1234-567X` is accepted |
| IssnPattern.AcceptsUnhyphenated | issn_find/find_all_issns.py:8 | the hyphen is optional: `1234567X` is accepted |
| IssnPattern.RegexMatches | issn_find/find_all_issns.py:23 | `ISSN_REGEX.match(v)` accepts every ISSN; whatever it accepts has 8 to 10 characters; and a match that is no ISSN ends in a newline |
| Sheets.TrimLeft | issn_find/find_all_issns.py:22 | the result is no longer than the input |
| Sheets.TrimRight | issn_find/find_all_issns.py:22 | the result is no longer than the input |
| Sheets.Strip | issn_find/find_all_issns.py:22 | the stripped value is no longer than the input |
| Sheets.TrimLeftSpec | issn_find/find_all_issns.py:22 | removing leading whitespace leaves the longest suffix that does not start with whitespace, and everything removed is whitespace |
| Sheets.TrimRightSpec | issn_find/find_all_issns.py:22 | removing trailing whitespace leaves the longest prefix that does not end in whitespace, and everything removed is whitespace |
| Sheets.StripSpec | issn_find/find_all_issns.py:22 | `strip()` returns the infix between the leading and the trailing whitespace, which neither starts nor ends with whitespace |
| Sheets.StripIdempotent | issn_find/find_all_issns.py:22 | stripping twice is stripping once |
| Sheets.Normalize | issn_find/find_all_issns.py:21-30 | a cell is skipped exactly when its value is `''`; text is stripped; a number is converted to text and stripped |
| Sheets.CandidateIsStripped | issn_find/find_all_issns.py:22-31 | a candidate string never starts or ends with whitespace |
| Sheets.CellToken | issn_find/find_all_issns.py:21-31 | a token, when a cell yields one, is the cell's candidate string, and so is what the set receives |
| Sheets.CellTokenSpec | issn_find/find_all_issns.py:21-31 | a cell yields a token exactly when it is not skipped and its stripped value is an ISSN, and the token is that stripped value |
| Sheets.TokenIsStrippedIssn | issn_find/find_all_issns.py:21-31 | every token is an ISSN, has no surrounding whitespace, and comes from a non-empty cell |
| Sheets.IssnTextIsToken | issn_find/find_all_issns.py:21-23 | a text cell holding exactly an ISSN yields it |
| Sheets.NonIssnTextIsNoToken | issn_find/find_all_issns.py:21-23 | a text cell with no surrounding whitespace that is no ISSN yields nothing |
| Sheets.RowTokensSpec | issn_find/find_all_issns.py:19-35 | a string is among a row's tokens iff some cell of the row yields it |
| Sheets.SheetTokensSpec | issn_find/find_all_issns.py:18-35 | a string is among a grid's tokens iff some cell `(r, c)` of the grid yields it |
| Sheets.SheetTokensAreIssns | issn_find/find_all_issns.py:23-27 | every token of a grid is an ISSN |
| Sheets.EndsWithSpec | issn_find/find_all_issns.py:69 | `n.endswith(suffix)` holds iff `n` is some string followed by `suffix` |
| Sheets.EndingWith | issn_find/find_issns_by_row.py:68-69 | the filter never keeps more sheets than the workbook has |
| Sheets.EndingWithMembers | issn_find/find_issns_by_row.py:68-69 | a sheet is selected iff it is in the workbook and its name ends with the suffix |
| FindAllIssns.IssnsFromSheet | issn_find/find_all_issns.py:13-37 | the returned set is the set of the grid's tokens, `duplicates` is the number of matching cells minus the set's size, and every element is an ISSN |
| FindAllIssns.ScanRow | issn_find/find_all_issns.py:19-35 | scanning one row extends the set and the counter from the tokens seen before it to the tokens seen up to its end |
| FindAllIssns.RecordStep | issn_find/find_all_issns.py:24-27 | for one matching cell, exactly one of "count a duplicate" (token already in the set) and "insert" keeps set and counter in line with the tokens seen |
| FindAllIssns.IsIssnInDoaj | issn_find/find_all_issns.py:40-47 | status 200 with a non-zero count is Found, status 200 with count 0 is NotFound, any other status is Failed; for counts ≥ 0, Found iff count ≥ 1 |
| FindAllIssns.Results | issn_find/find_all_issns.py:54 | one lookup result per listed ISSN, in list order: entry `k` is the lookup of the `k`-th ISSN |
| FindAllIssns.Answered | issn_find/find_all_issns.py:55 | the filtered list holds no `None`, holds exactly the values of the results other than `None`, and its length is the number of results minus the number of `None` results |
| FindAllIssns.SumTrue | issn_find/find_all_issns.py:56 | the sum is the number of `True` entries, so it is at most the length of the list and is 0 iff no entry is `True` |
| FindAllIssns.AnsweredCounts | issn_find/find_all_issns.py:54-57 | dropping `None` results leaves the answered ones, their sum is the number found, and every result is of exactly one kind |
| FindAllIssns.Summarise | issn_find/find_all_issns.py:52-58 | present is the number of Found results; failed is the number dropped by the `None` filter; present + notfound + failed is the number of results; the failure line is shown iff failed > 0 |
| FindAllIssns.ResultsOrderFree | issn_find/find_all_issns.py:54-56 | over a list without repetitions, the number of results of a kind is the number of the set's ISSNs of that kind, whatever the listing order |
| FindAllIssns.ResultPartition | issn_find/find_all_issns.py:54-58 | every distinct ISSN is found, not found or failed, and only one of these |
| FindAllIssns.SummaryOf | issn_find/find_all_issns.py:50-58 | present + notfound + failed equals the number of distinct ISSNs, so present and failed are each at most that number; the failure line is shown iff failed > 0 |
| FindAllIssns.ReportSheet | issn_find/find_all_issns.py:50-58 | scanning, listing the set in any order, looking every ISSN up and counting gives the set-based summary of the sheet |
| FindAllIssns.FirstSheet | issn_find/find_all_issns.py:68 | `sheet_names()[:1]` is the first sheet alone, or nothing for an empty workbook |
| FindAllIssns.SelectSheets | issn_find/find_all_issns.py:68-69 | at most one sheet is selected: the first, and only when its name ends with the suffix |
| FindAllIssns.ReportWorkbook | issn_find/find_all_issns.py:68-70 | one report per selected sheet, in order, each the summary of that sheet |
| FindAllIssns.Run | issn_find/find_all_issns.py:61-79 | the 2016 workbook yields a report iff its first sheet's name ends with `2016`, the 2017 workbook likewise with `2017`, and the report is that sheet's summary |
| FindAllIssns.DuplicateInRowExample | issn_find/find_all_issns.py:24-27 | a sheet holding one ISSN twice, a non-token cell and a blank row has one distinct ISSN, one duplicate, and one present when the registry reports one match |
| FindAllIssns.NearMissCellToken | issn_find/find_all_issns.py:23 | a cell holding `0001-0002X` yields no token |
| FindAllIssns.SpellingsAreDistinct | issn_find/find_all_issns.py:24-27 | two different accepted spellings in one row are two distinct ISSNs and no duplicate |
| FindAllIssns.CaseOfCheckCharacterKept | issn_find/find_all_issns.py:24-27 | a row holding `1234-567x` and `1234-567X` reports two distinct ISSNs and no duplicate: IGNORECASE affects the match, not the set |
| FindIssnsByRow.IsIssnInDoaj | issn_find/find_issns_by_row.py:16-23 | True iff the status is 200 and the count is non-zero (≥ 1 for counts ≥ 0); any other status gives False |
| FindIssnsByRow.FailureCountsAsNotFound | issn_find/find_issns_by_row.py:20-23 | the Boolean lookup is True exactly when the whole-sheet lookup is Found, so a failed lookup counts as not found |
| FindIssnsByRow.AddStep | issn_find/find_issns_by_row.py:34-44 | scanning one more cell adds its token, if any, to the row's fresh set |
| FindIssnsByRow.RowSum | issn_find/find_issns_by_row.py:46 | the sum over a listing is at most the length of the listing |
| FindIssnsByRow.RowSumOrderFree | issn_find/find_issns_by_row.py:46 | the sum of lookups over a listing of a set is the number of its ISSNs the registry knows, whatever the listing order |
| FindIssnsByRow.RowEntries | issn_find/find_issns_by_row.py:31-46 | the list has at most one entry per row |
| FindIssnsByRow.IssnsFromSheetByRow | issn_find/find_issns_by_row.py:26-48 | the returned list is one entry per row whose set is non-empty, in row order, each the number of that row's ISSNs the registry knows |
| FindIssnsByRow.BearingRowsSpec | issn_find/find_issns_by_row.py:31-45 | the ISSN-bearing rows are listed in strictly increasing order, in bounds, and a row is listed iff it holds an ISSN |
| FindIssnsByRow.RowEntriesByRow | issn_find/find_issns_by_row.py:31-46 | entry `k` belongs to the `k`-th ISSN-bearing row and depends on that row's own set alone |
| FindIssnsByRow.EntryBounds | issn_find/find_issns_by_row.py:46 | every entry is at most the size of its row's set, which is at most `ncols` |
| FindIssnsByRow.CountOfSpec | issn_find/find_issns_by_row.py:55-57 | `c.count(v)` is at most `len(c)`; it is 0 iff `v` is not in `c`, and `len(c)` iff every entry is `v` |
| FindIssnsByRow.TallyPartition | issn_find/find_issns_by_row.py:55-57 | every entry is counted as 2, 1, 0 or above 2, exactly once |
| FindIssnsByRow.Tally | issn_find/find_issns_by_row.py:54-57 | the number of rows is `len(c)`, and the three tallies plus the entries above 2 add up to it |
| FindIssnsByRow.TallyComplete | issn_find/find_issns_by_row.py:55-58 | the three tallies add up to `len(c)` iff no entry exceeds 2 |
| FindIssnsByRow.ReportSheet | issn_find/find_issns_by_row.py:51-58 | the report of a sheet is the tally of its per-row entries |
| FindIssnsByRow.NarrowSheetFullyTallied | issn_find/find_issns_by_row.py:55-58 | on a sheet of at most two columns, every ISSN-bearing row is in exactly one of the three tallies |
| FindIssnsByRow.ReportWorkbook | issn_find/find_issns_by_row.py:68-70 | one report for every sheet whose name ends with the suffix, not just the first, in workbook order |
| FindIssnsByRow.Run | issn_find/find_issns_by_row.py:61-79 | the main program reports on every 2016 sheet of the first workbook and every 2017 sheet of the second |
| FindIssnsByRow.TwoColumnExample | issn_find/find_issns_by_row.py:33-57 | a row with two different known ISSNs, a row with one known ISSN in both columns and an empty row tally as one found by both and one found by one, with the empty row not counted |
| Collections.Enumerate | issn_find/find_all_issns.py:54 | `list(set)` lists every element of the set exactly once, in an order the model does not fix |

## Left out

- Opening workbooks and reading cells through `xlrd`: a sheet is given as its name and a grid of `nrows` rows. Every row is padded to `ncols` cells, as the reader does by default.
- `sheet_by_name(n)`: sheets are taken by position. Sheet names are unique within a workbook, so the lookup returns the sheet at that position.
- The numeric branch, `unicode(value)`: this is the parameter `toStr`, and its output is not modelled. Dates, booleans and error codes are non-text values too. The single `Numeric` case stands for all of them, and the model does not tell their conversions apart.
- The HTTP request: the registry is the parameter `oracle`, which maps an ISSN to its status and `x-total-count`. The crash on a missing or non-numeric header is not modelled, and neither is the URL built from `DOAJ_SEARCH`.
- Errors raised by `requests.get` itself (`find_all_issns.py:43`, `find_issns_by_row.py:19`): nothing catches them, so a connection error ends the whole run, and with no timeout set the call can also hang. The oracle always answers, so `Failed` in the whole-sheet model and `False` in the by-row model stand only for a response whose status is not 200, never for a network failure.
- `time.sleep(WAIT_PERIOD)`: throttling with no effect on any result.
- Every `print`: the model returns the numbers the scripts print, not the wording. The file names of the workbooks are not modelled.
- `strip()`: modelled with an explicit whitespace predicate, the characters Python 2's `unicode.isspace` accepts. It is not derived from the Unicode database.
- TrimLeft: its own contract gives only the length bound. The exact result is stated by the lemma `TrimLeftSpec`, kept apart because a postcondition that slices the string makes every proof that unfolds a cell much slower.
- TrimRight: its own contract gives only the length bound. The exact result is stated by `TrimRightSpec`, for the same reason.
- Strip: its own contract gives only the length bound. What `strip()` returns is stated by `StripSpec`, for the same reason.
- CellToken: its own contract says only that a token is the cell's candidate. When a cell yields a token, and that the token is an ISSN, is stated by `CellTokenSpec`, for the same reason.
- EndingWith: its own contract gives only the length bound. Which sheets are kept, and in which order, is stated by `EndingWithMembers` and by the two `ReportWorkbook` methods.
- RowSum: its own contract gives only the bound. Its value on a listing of a set is stated by `RowSumOrderFree`.
- RowEntries: its own contract gives only the bound. Which rows have entries, and what each entry is, is stated by `RowEntriesByRow` and `BearingRowsSpec`.
