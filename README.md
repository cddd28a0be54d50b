# LayerZero sybil-report scanner, modelled in Dafny

The program reads a list of wallet addresses. For each address it searches
the issue tracker of the LayerZero sybil-report repository on GitHub, and
it writes one row per address to an Excel workbook:

- a clear address gets a count of 0 and a green count cell;
- an address with reports gets the number of reports, a red count cell and
  one `=HYPERLINK("link", "title")` cell per report.

When every search is done, a final pass over the sheet does two things. It
writes the number of addresses with reports to cell C1. It sets the width
of each report column to the longest text measured in that column.

The model covers the following parts of `main.py`:

- **Classifying a search page** (`find_address`). A page that contains the
  no-results phrase is clear. A page that contains the secondary-rate-limit
  phrase is fetched again after a sleep. Any other page is parsed for the
  results container. If the container is missing, the address is clear. If
  it is present, the address gets one report per issue row, in document
  order. Module `Extractor` covers this.
- **The per-address scan loop**, followed by the single `edit_table` call.
  Module `Scanner` covers this.
- **The workbook** (class `Excel`): the header written on creation and
  `edit_table`. `edit_table` builds the row, appends it, fills the count
  cell and retries when the save is denied. The workbook also includes
  `final_formatting`, which does the count, the column widths and C1.
  Module `Workbook` covers the class. The sheet as data is in `Sheet`.
  The walk of the final pass is in `Formatting`. The load/compute/save
  retry policy is in `Retry`.
- **The runner**: the index string `[i/n]` of every address, one task per
  address, and then the final pass. The tasks run concurrently, and only
  the order in which they reach the workbook lock matters to the sheet. The
  model takes that order as an input, which can be any permutation of the
  tasks. Module `Completion` covers this for any order, and module `Runner`
  covers it for the runner's tasks.

Python's string operations used by the code are modelled in `Strings`:
`in`, `split(sep)[1]` and `str(n)`.

Conventions:

- A sheet is a sequence of rows, and row `r` is `rows[r - 1]`.
- A row lists its cells. Any position past the end of a row is blank, and a
  blank cell renders as `None`.
- The final pass walks from the first row that holds a written cell to the
  last one. It walks columns up to the last column that holds a written
  cell in any row. Empty rows at the end are not walked, and trailing blank
  positions do not count as columns.
- Columns are numbered, so column 4 is `D`.
- The outside world comes in as data:
  - the pages each search returns, one per request;
  - the fate of the load and of the save in each retry cycle: done,
    `PermissionError`, or any other exception;
  - the order in which tasks complete.
- Storing a row in `edit_table` raises exactly when its text holds a
  character openpyxl refuses: one in U+0000 to U+001F other than tab,
  line feed and carriage return. The model decides this from the row itself,
  and the method then returns False like any other exception.

## Model

| member | source | states |
|---|---|---|
| Strings.IndexFromSpec | main.py:108 | the search from a position finds the first occurrence at or after it, and None means there is no occurrence there |
| Strings.IndexOfSpec | main.py:108 | `find` returns the first occurrence of the pattern, and None only when the pattern occurs nowhere |
| Strings.ContainsIff | main.py:108 | Python's `pat in s` holds exactly when the search finds `pat` |
| Strings.NotContainsWithoutHead | main.py:108 | a string that never has the pattern's first character does not contain the pattern |
| Strings.UpToSpec | main.py:108 | the piece before the first separator is a prefix free of the separator, and no occurrence starts inside it; when the separator occurs, it occurs right after the piece, and otherwise the piece is the whole string |
| Strings.SplitSecondSpec | main.py:108 | `split(sep)[1]` exists exactly when `sep` occurs; it is a `sep`-free prefix of what follows the first `sep`, no occurrence there starts inside it, and it runs either to the end of the string or up to the next `sep` |
| Strings.NatToString | main.py:116 | `str(n)` is a non-empty string of decimal digits |
| Strings.ParseNatToString | main.py:116 | reading the digits of `str(n)` back gives `n` |
| Strings.NatToStringInjective | main.py:178 | different numbers are rendered differently |
| Extractor.ReportsOf | main.py:160-164 | one report per issue row, in document order, each with the absolute link and the title of its row |
| Extractor.CollectReports | main.py:161-164 | the loop that builds `reports_data` produces exactly the reports of the rows, in order |
| Extractor.Classify | main.py:141-167 | the no-results phrase gives clear even when the rate-limit phrase is present; a rate-limited result comes exactly from the rate-limit phrase without the no-results phrase; a missing results container gives clear; a result with reports comes exactly from a page with neither phrase and a container, and carries that container's reports |
| Retry.FirstSettling | main.py:47-89 | the cycle that ends a retry loop ends it, and every earlier cycle hit a `PermissionError` |
| Retry.SucceedsIff | main.py:82-89 | given a run of `PermissionError` cycles followed by one that ends the loop, the operation returns True exactly when that cycle loads, computes and saves |
| Sheet.ResultRow | main.py:52-65 | a clear row is exactly `[index, address, 0]`; a row with reports has length 3+n, holds n in column 3, and holds report i's `=HYPERLINK` formula in column 4+i |
| Sheet.StorableConcat | main.py:67 | text is accepted as a cell value exactly when both of its parts are |
| Sheet.FormulaStorable | main.py:64 | a report cell is accepted exactly when its link and its title are |
| Sheet.ResultRowStorable | main.py:52-67 | `sheet.append(valid_info)` goes through exactly when the index string, the address and every report's link and title hold no character openpyxl refuses |
| Sheet.CellWidthSpec | main.py:108-109 | measuring a cell raises exactly when its text contains `=HYPERLINK` but not `, "`; a cell without `=HYPERLINK` measures as the length of its whole text |
| Sheet.HyperlinkTagged | main.py:108 | every report cell `edit_table` writes contains `=HYPERLINK` |
| Sheet.FirstSep | main.py:108 | when the link holds no comma, the first `, "` of a report cell is the one right after the link's closing quote |
| Sheet.BlankWidth | main.py:109 | an empty position measures 4, the length of `None` |
| Sheet.HyperlinkWidth | main.py:108 | when the link holds no comma, a report cell measures as the length of the title followed by `")`, cut at its first `, "` |
| Sheet.HyperlinkWidthPlain | main.py:108 | when neither the link nor the title holds a comma, a report cell measures as the title's length plus 2 |
| Sheet.HyperlinkMeasurable | main.py:108 | measuring never raises on a report cell that `edit_table` wrote |
| Sheet.MinRow | main.py:100 | `min_row` is the first row that has a written cell |
| Sheet.MaxRowSpec | main.py:100 | every row after `max_row` is empty, and row `max_row` holds a written cell |
| Sheet.BlankRowIff | main.py:100 | a row is empty exactly when it has no last written cell, so `max_row` and `max_column` agree on which rows are empty |
| Sheet.RowLenSpec | main.py:100 | every position of a row after its last written cell is blank, and that cell is not |
| Sheet.RectRow | main.py:100 | row i of the walk is row `min_row + i` of the sheet |
| Sheet.RectAfterEmptyFirst | main.py:100 | a sheet with an empty row 1, a written row 2 and a written last row is walked from row 2 to its last row |
| Sheet.MaxCol | main.py:100 | `max_column` is the largest column that holds a written cell in some row, and some row attains it |
| Sheet.SummaryReadsBack | main.py:116 | the C1 text starts with `Total ratted addresses: `, and the count can be read back from the rest |
| Sheet.PutC1 | main.py:116 | writing C1 puts the value in column 3 of row 1 and leaves every other cell of that row as it was |
| Sheet.WithC1 | main.py:116 | writing C1 changes no row but row 1 |
| Formatting.RattedCountZero | main.py:100-104 | the count is 0 exactly when no walked row has a positive int in column 3 |
| Formatting.RattedCountAppend | main.py:100-104 | the count over two runs of rows is the sum of their counts |
| Formatting.ColumnWidth | main.py:106-111 | a column's width exists exactly when every cell in it measures, and it bounds every cell's measured length |
| Formatting.ColumnWidthAttained | main.py:111 | over at least one row, a column's width is the measured length of one of its cells |
| Formatting.RowWidthsSpec | main.py:100-109 | a row's measured lengths exist exactly when every cell in columns 4 to `max_column` measures, and each length sits at its cell's column |
| Formatting.Widths | main.py:99-111 | `max_lengths` has no entry over no rows and otherwise one entry per column from 4 to `max_column`, each the column's width |
| Formatting.Wider | main.py:106-111 | the kept length is the larger of the previous one (0 when absent) and the new one |
| Formatting.Widen | main.py:106-111 | the walk over one row updates exactly columns 4 onward with the larger length and leaves every other entry as it was |
| Formatting.WidenStep | main.py:106-111 | widening by one more cell changes only that cell's column |
| Formatting.WidthsStep | main.py:100-111 | the widths over one more row are the old widths widened by that row's lengths |
| Formatting.KeepLonger | main.py:106-111 | at one cell, the column gets the larger of its entry (0 when absent) and the cell's length |
| Formatting.TallyRow | main.py:101-111 | the walk over one row raises exactly when a cell cannot be measured; otherwise it reports whether the row is ratted and widens `max_lengths` by the row's lengths |
| Formatting.RowBlocked | main.py:108 | one cell from column 4 on that cannot be measured makes the walk over its row raise |
| Formatting.Walk | main.py:100-111 | the loop over the walked rows raises exactly when some cell cannot be measured; otherwise it returns the ratted count and every column's width |
| Formatting.Tally | main.py:95-111 | the walk over `min_row..max_row` raises exactly when some cell cannot be measured; otherwise it returns the count of ratted rows and the width of every column from 4 on |
| Workbook.FilledAppend | main.py:67-74 | after an append with its fill, every result row has the fill its count calls for, and no other row has one |
| Workbook.AppendKeepsValid | main.py:67-74 | appending a result row with its fill keeps the sheet's shape and keeps the fills in step |
| Workbook.LastRowWritten | main.py:67 | the last row of a sheet the program wrote holds a written cell |
| Workbook.FilledSummary | main.py:116 | writing C1 keeps the fills in step with the rows |
| Workbook.ResultRowRatted | main.py:103 | the final pass counts a written row exactly when the address had at least one report |
| Workbook.CellMeasurable | main.py:108-109 | on a sheet shaped as the program writes it, every cell from column 4 on can be measured |
| Workbook.WellFormedMeasurable | main.py:100-111 | the width pass never raises on a sheet shaped as the program writes it |
| Workbook.RowMeasurableAt | main.py:106-109 | every row of a sheet the program wrote measures, whatever its last column |
| Workbook.ApplyWidths | main.py:113-114 | every measured column takes its measured width, and every other column keeps its width |
| Workbook.SummaryKeepsShape | main.py:116 | writing C1 keeps the sheet's shape: header, result rows, and nothing but C1 in row 1 |
| Workbook.SummaryKeepsValid | main.py:116 | writing C1 keeps the sheet's shape and its fills in step |
| Workbook.Format | main.py:95-116 | one cycle's computation raises exactly when some cell cannot be measured; otherwise it writes the ratted count to C1 and sets every measured column's width |
| Workbook.KeepsFixedWidths | main.py:113-114 | the final pass leaves the widths of columns A, B and C as they were |
| Workbook.FixedWidthsKept | main.py:113-114 | columns A, B and C keep the widths 10, 46 and 24 through the final pass |
| Workbook.Excel.constructor | main.py:28-35 | a new workbook holds the header in row 2, an empty row 1, no fills, and widths 10, 46 and 24 for columns A, B and C |
| Workbook.Excel.EditTable | main.py:45-89 | returns True exactly when the first cycle without a `PermissionError` loads, stores the row and saves; storing raises, and the method returns False, when the row holds text openpyxl refuses; on True exactly one row is appended after the last one, earlier rows are unchanged, and the count cell is filled red exactly for an address with reports; on False nothing changes; the shape is kept |
| Workbook.Excel.FinalFormatting | main.py:92-126 | returns True exactly when the first cycle without a `PermissionError` loads, measures every cell and saves; then C1 holds the ratted count, the measured widths are set, and no other cell changes; on False nothing changes |
| Workbook.FinalFormattingOnValid | main.py:92-126 | on a workbook the program wrote, the final pass cannot fail on a cell, and only the I/O decides its result |
| Scanner.FirstSettled | main.py:137-148 | the page that ends the scan is the first one that is not rate limited |
| Scanner.Scan | main.py:137-168 | when the first k pages are rate limited and the next one is not, the scan makes k+1 fetches and k sleeps, and returns the verdict of page k+1 |
| Scanner.FindAddress | main.py:129-170 | one scan, then exactly one `edit_table` with its verdict, which saves exactly when that call's first settling cycle stores the row and saves; on a save the sheet has gained exactly this address's row and nothing else changed, otherwise the sheet is as it was |
| Completion.DistinctPrefix | main.py:178 | a prefix of a completion order is still free of repeats |
| Completion.LastIsNew | main.py:178 | the last task of a completion order has not run before |
| Completion.AppendedSnoc | main.py:178 | running the next task in the order appends what that task hands over |
| Completion.LabelCountAppend | main.py:67 | the number of rows with a given index string adds up over two runs of rows |
| Completion.CarriersSnoc | main.py:178 | the tasks whose row carries a given index string, over one more task of the order |
| Completion.AppendedLabels | main.py:178 | the number of appended rows with a given index string is the number of tasks in the order that hand over such a row |
| Completion.RattedOutsSnoc | main.py:178 | the tasks that hand over a ratted row, over one more task of the order |
| Completion.AppendedRatted | main.py:100-104 | the ratted count of the appended rows is the number of tasks in the order that hand over a ratted row |
| Completion.HandersSnoc | main.py:178 | the tasks that hand over a row, over one more task of the order |
| Completion.AppendedSize | main.py:178 | as many rows are appended as there are tasks in the order that hand one over |
| Completion.AppendedFrom | main.py:67 | every appended row is the row that some task of the order handed over |
| Completion.HeadNotCounted | main.py:100-104 | a first row that is not ratted adds nothing to the count |
| Completion.FreshSheetCount | main.py:28-31 | on a new workbook with rows appended, the final pass walks the header and those rows, and the header does not count |
| Runner.IndexLabelInjective | main.py:178 | two addresses of one run have the same index string exactly when they are the same address |
| Runner.LabelStorable | main.py:178 | an index string is always accepted as cell text |
| Runner.TaskRowStorable | main.py:67 | a task's row can be stored exactly when its address and its reports' links and titles can |
| Runner.CarriesLabel | main.py:178 | a task hands over a row with task j's index string exactly when it is task j and its save went through |
| Runner.Outcomes | main.py:178 | one hand-over per address |
| Runner.NoLossNoDuplicate | main.py:178 | after the gather, an address's row is in the sheet once if its save went through and not at all otherwise |
| Runner.SavedRowCount | main.py:170 | the sheet body gains exactly as many rows as there are tasks whose save went through; over a whole completion order, that is the number of addresses saved |
| Runner.RowsAreTaskRows | main.py:170 | every appended row is the row of a saved task of the order: that task's index string, address and verdict |
| Runner.RattedRows | main.py:103 | the ratted count of the appended rows is the number of addresses saved with at least one report |
| Runner.RunTask | main.py:178 | one task of the gather appends what that task hands over and keeps the sheet's shape |
| Runner.Gather | main.py:178 | after the gather, the sheet is the header followed by the saved rows in completion order |
| Runner.Run | main.py:173-180 | after `runner`, the sheet holds the header and the saved rows in completion order; if the final save goes through, C1 holds the number of addresses saved with reports and every report column takes its measured width, otherwise row 1 is empty and the widths are the initial ones; the walk never raises on that sheet; columns A, B and C keep widths 10, 46 and 24 |

## Left out

- The HTTP session, its headers and the request (main.py:131-139). Each
  task's pages are an input sequence instead.
- Exceptions raised by the request. The code does not catch them: one
  escapes `find_address` and the gather. The code has no "unrecoverable"
  outcome for an address, so the model has none either. Every page in the
  model is a body that was fetched.
- BeautifulSoup/lxml parsing (main.py:151-163). A page carries the issue
  rows of its results container, or None when the container is absent.
- Files (main.py:20, 22, 25, 42, 49, 82, 96, 119). This covers the
  `results` directory, the timestamped file name and the loads and saves.
  The model keeps the sheet in memory. Each cycle's load and save come in
  as fates, and a fate decides only whether the cycle goes through.
- Workbook.Excel.constructor: does not model a save at creation that fails. The
  model's workbook always exists.
- Fonts, borders and alignment (main.py:37-40, 77-80, 117). Fills and
  widths are modelled; the rest of the styling is not.
- Python's `int(cell.value)` on the count cell. The model's count cell
  always holds an int.
- The semaphore of 20 and the lock (main.py:23, 46, 130, 176). `asyncio`
  interleaving is modelled only by the order in which tasks reach the lock,
  which is an input. One `edit_table` runs at a time.
- Real sleeps (main.py:86, 123, 148). The scan counts its 60-second sleeps;
  the 3-second sleeps of the retry loops are not counted.
- Logging, reading `addresses.txt` and the closing prompt (main.py:183-189).
- Non-termination. A scan of pages that are all rate limited never ends,
  and neither does a retry loop whose cycles all hit a `PermissionError`.
  The model requires that some page or cycle ends the loop.
- Strings.NatToString: does not state the absence of leading zeros. Only
  its injectivity and its round trip through the digits are used.
- Sheet.HyperlinkWidth: stated only for links without a comma. The
  links are `https://github.com` plus a path. A link with a comma could
  hold the separator `, "` and would be measured differently.
- Sheet.ResultRow: assumes every cell text fits Excel's limit of 32,767
  characters. openpyxl cuts longer text to that length before storing it,
  so a longer address or title would be stored shorter than the row says.
- Sheet.HyperlinkFormula: does not model quote characters inside a title or
  link, which would change how Excel reads the formula. The cell is kept as
  the string the program writes.
