# Mutual fund league table: ranking and rank-change model

This project models the core of `automate.py`, a tool that turns a spreadsheet of mutual
fund figures into a workbook of league tables. The core is `process_excel`. It does these steps:

1. It checks that the input has the label column `MutualFund Name`.
2. It splits off the rows whose label contains "total", ignoring case.
3. It reads an optional prior-period workbook. From each sheet it keeps an anchor string
   (cell D1) and, for sheets laid out as a league table, a fund name → prior rank map.
4. For every value column it ranks the funds that have a numeric value, highest value first.
   It resolves the prior sheet that corresponds to the column through the anchors. It
   computes each fund's rank change as prior rank minus current rank. Then it appends the
   total rows.

The model also covers two presentation rules applied to each written sheet:

- The arrow marker put on each rank change.
- The highlight of rows that mention "bajaj finserv".

Modules, one per file:

- `Base`: `Option`, `Result` and the run's errors.
- `Text`: ASCII lower-casing, substring search, Python's `strip()` whitespace, and decimal
  printing and parsing of integers.
- `Cells`: a cell is `Num(int)`, `Str(string)` or `Null`. The module also gives `str()` of a
  cell and rows as maps from column to cell.
- `OrderedDict`: a Python `dict` with string keys. It keeps insertion order, and an
  overwrite keeps the key's place.
- `RowFilter`: the split into total rows and value rows (lines 26-27).
- `ReferenceIndex`: the prior-period anchors and rank maps (lines 30-67). The loops that
  fill them are imperative methods, proved against fold functions.
- `Ranking`: the numeric filter and the descending sort (lines 76-81).
- `Reconcile`: sheet resolution (lines 93-104) and rank-change reconciliation (lines
  106-124). Resolution is a first-match loop with `break`. Reconciliation is a loop that
  overwrites an `array` of changes in place.
- `Pipeline`: one output sheet per value column, and the whole run (lines 15-131).
- `Presenter`: the marker rule (lines 183-195) and the highlight predicate (line 167).
- `Scenarios`: small worked examples of the run, of sheet resolution and of reconciliation.

Inputs the model takes as parameters instead of reading them:

- The parsed input table: its column names in order, and its rows.
- The prior workbook, as `Option<PriorBook>`. `None` means no file was supplied.
  `Unreadable` means the file cannot be opened. Otherwise the workbook is a list of sheets,
  each with its name, its D1 cell and its content, where content `None` means that sheet
  cannot be read.

Behaviour worth noting (the model follows the code in each case):

- A ranked fund with no prior rank keeps the change `0`, not an empty value, because line
  90 initialises the column to 0. With no prior workbook every change is therefore 0, not
  empty. Only total rows carry `None`.
- `sort_values` uses its default sort, which is not stable. Funds with equal values have
  no guaranteed order, so the model claims only a non-increasing permutation. Any two such
  orders agree on the value at every rank.
- A prior rank that is present but not a number makes `old_rank - current_rank` raise an
  exception, and nothing in `process_excel` catches it. The model turns this into the
  error `RankNotNumeric(fund)`, which stops the run.
- A blank, empty or zero D1 becomes the anchor `""`. An empty anchor is contained in every
  title, so it matches every column (line 100).
- A resolved sheet whose name is the empty string is falsy at line 104, so it is not
  reconciled.
- The change is `old_rank - current_rank`. A fund that was 2nd and is now 1st gets `+1`
  (see `Scenarios.SwappedRanks`).

## Model

| member | source | states |
|---|---|---|
| RowFilter.Partition | automate.py:20-27 | fails with `MissingLabelColumn` exactly when the label column is absent; otherwise its parts interleave to the input rows, the first holding only total rows and the second none |
| RowFilter.Totals | automate.py:26 | every kept row is a total row |
| RowFilter.Values | automate.py:27 | no kept row is a total row |
| RowFilter.PartitionInterleaves | automate.py:26-27 | every input row lands in exactly one part, in its original relative order, and the part lengths add up to the input length |
| RowFilter.InterleavesMultiset | automate.py:26-27 | the two parts together are a permutation of the input rows |
| RowFilter.PartitionUnique | automate.py:26-27 | the split is the only order-keeping split of the rows into total and non-total rows |
| RowFilter.NullLabelIsNotTotal | automate.py:26-27 | a row with a missing label is never a total row (`na=False`) |
| RowFilter.IsTotalSpec | automate.py:26-27 | a label is a total exactly when it is text and "total" occurs at some index of its lower-case form; a missing or numeric label never is (`na=False`) |
| Text.ContainsAt | automate.py:26 | substring containment holds exactly when the pattern occurs at some index |
| Text.ContainsLength | automate.py:100 | a contained string is never longer than the text containing it |
| Text.TrimStart | automate.py:41 | drops exactly the leading whitespace: the result is a suffix that is empty or starts with a non-space, and all dropped characters are spaces |
| Text.TrimEnd | automate.py:41 | drops exactly the trailing whitespace, mirrored |
| Text.StripSlice | automate.py:41 | `strip()` returns a slice of its input with no whitespace at either end, and everything cut away is whitespace |
| Text.DecimalRoundTrip | automate.py:62 | parsing the decimal text of an integer gives the integer back |
| Cells.AsString | automate.py:62 | `str()` of a number reads back as that number and of a text is the text itself; every use in the model is guarded by `NotNull` or `Truthy`, so the `Null` case ("None") is never reached |
| Cells.Truthy | automate.py:40 | only a present value can be truthy |
| OrderedDict.Put | automate.py:41 | storing a key keeps the dict well formed and maps the key to the new value, leaves every other key and value as it was, keeps the place of an existing key and appends a new one at the end |
| ReferenceIndex.AnchorShape | automate.py:40-41 | a falsy D1 gives the anchor `""`; any other D1 gives its `str()` with the surrounding whitespace cut away |
| ReferenceIndex.LastFundHeaderSpec | automate.py:51-54 | the chosen fund header contains "mutual fund" ignoring case and no later header does; there is none when no header qualifies |
| ReferenceIndex.RankIsNotFundHeader | automate.py:53-56 | the header "Rank" never counts as a fund header, so the `elif` always sees it |
| ReferenceIndex.FindColumns | automate.py:49-56 | the scan returns the last fund header and the exact header "Rank", if present |
| ReferenceIndex.RankMapOf | automate.py:61-64 | the rank map is a proper insertion-ordered dict; its entries are given by `RankMapEntry` and its key order by `RankMapKeyOrder` |
| ReferenceIndex.RankMapEntry | automate.py:61-64 | a key is in the map exactly when some row with non-null name and rank has that `str(name)`; it maps to the rank of the last such row |
| ReferenceIndex.RankMapKeyOrder | automate.py:61-64 | the keys are listed in the order of each key's first counted row: every key has such a row, and for two keys the earlier one's first row comes before the later one's |
| ReferenceIndex.BuildRankMap | automate.py:61-64 | the insertion loop builds exactly that map |
| ReferenceIndex.SheetRanks | automate.py:48-64 | a sheet has a rank map exactly when some header contains "mutual fund" ignoring case and one header is exactly "Rank"; the map is well formed and built from the last fund header's column |
| ReferenceIndex.AnchorsOf | automate.py:38-41 | the anchors of all sheets form a well-formed insertion-ordered dict |
| ReferenceIndex.CollectAnchors | automate.py:38-41 | the loop over the sheets records exactly the anchors of all sheets |
| ReferenceIndex.AnchorKeys | automate.py:38-41 | with distinct sheet names, the anchor dict's keys are the sheet names in sheet order |
| ReferenceIndex.AnchorOfSheet | automate.py:38-41 | with distinct sheet names, every sheet's name maps to the anchor read from its own D1 |
| ReferenceIndex.AnchorsInSheetOrder | automate.py:38-41 | the anchors are listed in sheet order, and each sheet's anchor comes from its own D1 |
| ReferenceIndex.CollectRanks | automate.py:44-64 | fails exactly when some sheet cannot be read; otherwise it keeps the rank maps of the sheets that have both headers |
| ReferenceIndex.RanksOf | automate.py:44-64 | every stored rank map is a proper insertion-ordered dict |
| ReferenceIndex.RanksPerSheet | automate.py:58-64 | a sheet has a rank map exactly when it has both headers; the map is built from that sheet's own rows, and only sheet names are keys |
| ReferenceIndex.IndexOf | automate.py:32-67 | an unreadable workbook or sheet gives `ReferenceUnreadable`; a readable one gives a well-formed index |
| ReferenceIndex.LoadIndex | automate.py:30-67 | the reference load fails exactly when a file is supplied and it or one of its sheets cannot be read |
| ReferenceIndex.LoadReference | automate.py:32-67 | the imperative load returns exactly that index or error |
| ReferenceIndex.NoReference | automate.py:30-31 | without a file both dicts are empty |
| Ranking.Candidates | automate.py:76-77 | never more candidates than rows |
| Ranking.CandidatesCount | automate.py:76-77 | each entry occurs among the candidates exactly as many times as there are rows giving it (a label with that value), so equal rows are all ranked |
| Ranking.CandidatesLength | automate.py:76-77 | the number of candidates, N, is the number of rows with a non-null label and a numeric value |
| Ranking.CandidatesMembership | automate.py:76-77 | the candidates are exactly the rows with a non-null label and a numeric value |
| Ranking.NoNumbersNoCandidates | automate.py:76-77 | a column with no numeric value ranks nobody |
| Ranking.InsertDesc | automate.py:79 | insertion keeps the order non-increasing and adds exactly one element |
| Ranking.SortDesc | automate.py:79 | the sort result is non-increasing and a permutation of its input |
| Ranking.Ranked | automate.py:76-81 | the ranked entries are in non-increasing order of value and are a permutation of the candidates |
| Ranking.ValuesOfPermutation | automate.py:79 | permuting entries permutes their values |
| Ranking.DescendingUnique | automate.py:79 | two non-increasing integer sequences with the same elements are equal |
| Ranking.SortedValuesDetermined | automate.py:79-81 | any two sorted permutations of the candidates agree on the value at each rank, so ties only swap funds of equal value |
| Reconcile.SheetTitle | automate.py:93 | the title is the column name cut to its first 31 characters |
| Reconcile.AnchorMatches | automate.py:100 | the three tests reduce to containment one way or the other, ignoring case |
| Reconcile.EmptyAnchorMatchesAll | automate.py:100 | an empty anchor matches every title |
| Reconcile.FirstMatchSpec | automate.py:98-102 | no match exactly when no anchor matches; otherwise the result is the first key in order whose anchor matches |
| Reconcile.FirstMatchAtUnique | automate.py:98-102 | only one position can be the first match |
| Reconcile.Resolve | automate.py:98-102 | no sheet is resolved exactly when no anchor matches the title; a resolved sheet is the first sheet in order whose anchor matches |
| Reconcile.ResolveSheet | automate.py:93-102 | the first-match loop with `break` returns exactly that resolution |
| Reconcile.FirstFoldedSpec | automate.py:118-124 | the fallback finds the first key, in insertion order, that equals the name ignoring case |
| Reconcile.Lookup | automate.py:110-124 | an exact key gives its own rank; the case-insensitive fallback is stated by `Reconcile.LookupSpec` |
| Reconcile.LookupSpec | automate.py:110-124 | a prior rank is found exactly when some key equals the name ignoring case; an exact key wins; otherwise the first case-insensitive key in order is used |
| Reconcile.LookupRank | automate.py:107-124 | the exact-then-fallback loop returns exactly that lookup |
| Reconcile.ApplyFrom | automate.py:106-124 | reconciliation keeps one change per ranked row |
| Reconcile.ApplyFromSpec | automate.py:106-124 | from row `i` on, rows before `i` are untouched, each later row gets prior − rank when a numeric prior rank is found and keeps its value otherwise; failure happens exactly at a non-numeric prior rank |
| Reconcile.ApplyChanges | automate.py:106-124 | reconciliation keeps one change per ranked row, and its only failure is a non-numeric prior rank |
| Reconcile.ReconcileSpec | automate.py:106-124 | the fund at rank `j + 1` gets prior − (`j + 1`) or keeps its change; it succeeds exactly when no found prior rank is non-numeric, and otherwise fails naming such a fund |
| Reconcile.ReconcileInPlace | automate.py:106-124 | the loop over the array of changes leaves exactly the reconciled changes, or reports the error |
| Pipeline.ValueColumns | automate.py:73 | the value columns are exactly the columns other than the first and the label column |
| Pipeline.ValueColumnsOrder | automate.py:73 | the value columns keep the input order: an earlier value column stands earlier among the headers |
| Pipeline.Zeros | automate.py:90 | the initial change column holds a 0 for every ranked row |
| Pipeline.MatchedSheet | automate.py:93-104 | a sheet is used only if it is non-empty and has a rank map |
| Pipeline.MatchedSheetSpec | automate.py:96-104 | nothing is matched while no prior sheet has a rank map, or when no anchor matches; otherwise only the first matching sheet is a candidate, used exactly when its name is non-empty and it has a rank map, with no fallback to a later match |
| Pipeline.ColumnChanges | automate.py:89-124 | there is one change per ranked row, and the column fails only through a matched sheet's non-numeric prior rank |
| Pipeline.ColumnChangesSpec | automate.py:89-124 | without a matched sheet every change is 0; with one, the changes are the reconciled ones starting from 0, or the error of a non-numeric prior rank |
| Pipeline.ColumnSheet | automate.py:74-131 | the sheet is built exactly when the column's rank changes are; it is titled by the cut column name, and a column fails only with a non-numeric prior rank |
| Pipeline.ColumnSheetShape | automate.py:74-131 | the sheet is titled by the cut column name; N is the number of rankable rows; its first N rows carry ranks 1..N in order with non-increasing values, are the sorted candidates and each carries the change `ColumnChanges` computed for it; the total rows follow in input order, each with no change |
| Pipeline.UnmatchedColumnKeepsZeros | automate.py:89-104 | a column with no matched sheet keeps every rank change at 0 |
| Pipeline.ProcessColumn | automate.py:74-131 | the imperative per-column step, over an array of changes, gives exactly that column's sheet |
| Pipeline.CollectStep | automate.py:74 | one loop step either appends the column's sheet or ends the run with its error |
| Pipeline.CollectSpec | automate.py:74-131 | the collected outcome succeeds exactly when every column does, keeping their sheets in order; otherwise it has the first failing column's error |
| Pipeline.SheetsSpec | automate.py:74-131 | the run's sheets are the columns' sheets in column order; a failing column's error is the first one |
| Pipeline.ProcessColumns | automate.py:74-131 | the column loop gives exactly those sheets or that error |
| Pipeline.Run | automate.py:15-131 | the run fails with `MissingLabelColumn` when the label column is absent, and a successful run has one sheet per value column |
| Pipeline.ProcessExcel | automate.py:15-131 | the whole imperative run gives exactly the modelled outcome |
| Pipeline.MissingLabelStops | automate.py:20-23 | the run fails with `MissingLabelColumn` exactly when the label column is absent |
| Pipeline.LoadFailureStops | automate.py:30-67 | with the label column present, the run fails with `ReferenceUnreadable` exactly when the prior workbook cannot be read; once it is read, the only failure is a non-numeric prior rank |
| Pipeline.NoPriorAllZero | automate.py:30-31 | with no prior workbook the run succeeds with one sheet per value column, titled in order, and every rank change 0 |
| Presenter.Decorate | automate.py:183-195 | a change is decorated exactly when present, and its text starts with the change's decimal form |
| Presenter.DecorateSpec | automate.py:183-195 | "↑" and green exactly for positive changes, "↓" and red exactly for negative ones, "■" and no colour exactly for 0; the text reads back as the change |
| Presenter.DecorateInjective | automate.py:183-195 | different changes never get the same text |
| Presenter.RowCells | automate.py:167 | the row has four cells, the second being the fund name |
| Presenter.Mentions | automate.py:167 | a cell triggers the highlight exactly when it holds text whose lower-case form contains "bajaj finserv"; numbers and missing values never do |
| Presenter.KeywordOnlyInText | automate.py:167 | `str()` of a number or of a missing value never contains the keyword, and a text does exactly when its lower-case form does |
| Presenter.Highlighted | automate.py:167 | a row is highlighted exactly when some cell is truthy and its lower-cased text contains "bajaj finserv" |
| Presenter.HighlightedRow | automate.py:167 | a ranked row is highlighted exactly when its fund name mentions "bajaj finserv" in any case; a total row also when its value cell does |
| Scenarios.SampleWithoutPrior | automate.py:15-131 | FundA 100, FundB 200 and a Total line give FundB 1st, FundA 2nd, both with change 0, then the total line |
| Scenarios.EquityResolvesFirst | automate.py:93-102 | with anchors "Equity Fund" and "Debt", the column "Equity Fund - Growth" resolves to the first sheet |
| Scenarios.SwappedRanks | automate.py:106-115 | prior ranks FundA 1 and FundB 2 with current order FundB, FundA give changes +1 and −1 |
| Scenarios.CaseInsensitiveFallback | automate.py:116-124 | the name "fundc" finds the prior key "FundC" by the case-insensitive fallback |

## Left out

- The Streamlit interface, temporary files and the download flow (lines 218-317). They are user-interface and file-system plumbing.
- Reading workbooks with pandas and openpyxl, and saving the output (lines 17, 35, 46, 214). These are library I/O. The parsed table and the prior sheets are inputs.
- Which exceptions the reading raises. Any failure to open the workbook or to read one of its sheets is modelled as `ReferenceUnreadable`.
- Cell styling: fills, fonts, borders, the blank first column and column widths (lines 134-161 and 197-208). Only the marker text and colour of lines 183-195 and the highlight test of line 167 are kept.
- Floating-point values, NaN, booleans counted as numbers and numpy scalar types at line 77. Values are integers with their usual order.
- Non-ASCII case folding. `Lower` changes only the letters A-Z.
- Column headers that are not strings. A header is modelled as its `str()` form; see `Pipeline.Run` below for the abort this hides.
- Table layout after `pd.concat`. Total rows have no rank (NaN in pandas), and their missing rank is shown as `Null`. Neither value can name "bajaj finserv", so the highlight is the same either way.
- Ranked ranks are ints in the model. After the concat pandas may turn them into floats.
- The renaming openpyxl applies to a duplicate sheet title (line 134). Output sheets carry the cut column name as is.
- Duplicate sheet names in the prior workbook, which a workbook cannot have. `AnchorsInSheetOrder` and `RanksPerSheet` assume distinct names.
- A label column holding no strings at all, where pandas' `.str` accessor itself raises. Non-string labels are treated as non-total.
- The global warning filter (line 12).
- Ranking.SortDesc: the model sorts by insertion, so it fixes one order of equal values. The source's sort does not, and only the properties shared by every sorted permutation (`SortedValuesDetermined`) are claimed about the source.
- Pipeline.Run: succeeds in three cases where the source raises and the run aborts. (1) A cut column name holding one of `\ / ? * [ ] :` makes `create_sheet` raise `ValueError` (line 134). (2) A value column whose header is not a string makes `column[:31]` raise `TypeError` (line 93). (3) A table with no value columns leaves the workbook without a sheet once the default one is removed, and `wb.save` raises `IndexError` (lines 211-214). Sheet titles and the final save are library behaviour that is not modelled.
- Pipeline.ColumnSheet: a value column headed "Rank", "Rank Change" or "Mutual Fund" clashes with a column the code adds, and the model does not follow the source there. Line 81 overwrites a "Rank" column with the ranks. Line 90 overwrites a "Rank Change" column with 0, and reconciliation then writes the changes into it. In both cases the source's sheet loses the value column. After the rename at line 87, a "Mutual Fund" column gives two columns of that name, so `row['Mutual Fund']` at line 107 is a two-entry Series whose `str()` is not the fund name. The model always keeps the value in its own field and writes the four cells of `Presenter.RowCells`.
- Pipeline.ProcessExcel: returns the same outcome as `Run`, so it succeeds in the same three cases.
- Pipeline.NoPriorAllZero: states success with no prior workbook, which the source does not reach in the same three cases.
