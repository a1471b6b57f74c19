# PubMed export automation: the row loop, modelled in Dafny

The program reads a spreadsheet of PubMed search strategies, one query per
row. For each row it searches PubMed in a browser, reads the number of
results, and exports the result list to a text file named after the row. It
writes a status comment and the result count back into the sheet, saves it,
and styles the header row. This project models the decision procedure of
`process_excel` (`pubmed_pdf_downloader.py`):

- the two status columns `Comment` and `Result Count` are added when missing,
  filled with `""` (`Workbook.Frame.AddColumnIfMissing`);
- every row is processed in order (`Workbook.Frame.ProcessRow`,
  `Workbook.Frame.ProcessRows`). A row with a missing query or file name is
  marked `Empty values`. Otherwise:
  - the first whitespace-separated token of the results summary is read as an
    integer after its commas are removed, as Python's `int()` would read it,
    and stored;
  - a count above 1000 gives `Too many results`;
  - an alert banner containing `Quoted phrase not found in` gives
    `Quoted phrase warning`;
  - any failure of the search phase leaves an existing comment in place, or
    else gives `Search/warning error`. A failure while the alert banners are
    read comes after the count is stored, so the count stays;
  - otherwise the newest file matching `pubmed-*.*` is renamed to
    `<file name>.txt` and the row is marked `Downloaded`, or `Download error`
    when there is no such file or the export fails;
- loading the search page happens outside the row's error handling, so its
  failure ends the loop. The sheet is still saved with every later row as it
  was (`PageOutcome.NavigationFailed`);
- the header width rule `max(len(header) + 5, 15)` (`Styling`).

What the browser does for a row is an input of the model (`Rows.PageOutcome`):
- navigation failed, or the search failed before a summary was read;
- or the summary was read, but reading the alert banners then failed
  (`PageOutcome.AlertsFailed`);
- or the page showed a summary text and a list of alert texts, and the export
  step either failed or left a download-directory listing of names with
  their ctimes (`os.path.getctime`).

Spreadsheet cells are `Cells.Cell`: a missing value (pandas NaN), text, or an
integer. The table is a `Workbook.Frame` object whose rows live in an array
and are updated in place. The whole loop is also given as functions of the
table and the outcomes (`Workbook.RunRows`, `Workbook.Renames`,
`Workbook.HaltsWithin`), and the methods are proved equal to them.

Modules: `Wrappers` (Option), `Cells`, `Numerals` (tokenising and `int()`
parsing of the summary, and the thousands-grouped format it is read from),
`Downloads` (glob pattern, newest file, target name), `Rows` (one row's
effect), `Workbook` (the table, the loop), `Styling` (header widths), and
`Scenarios` (concrete rows worked through end to end).

Points where the model follows the code closely:
- a missing value is only what pandas reads as NaN (`pd.isna`). The test
  applies to the table as pandas read it. By then the reader has already
  turned an empty cell, and the NA spellings such as `NA`, `N/A`, `NULL`,
  `None`, `nan` and `#N/A`, into NaN. Any other text, including text of
  spaces only, is not skipped;
- not every row ends with a terminal comment. A row whose search fails keeps
  whatever comment it already had. After a navigation failure, that row and
  every later row are left untouched.

One point where the loop departs from the code: the search-error handler.
As written (`if not df.at[index, 'Comment']`, line 87), it keeps a blank
comment cell, because NaN is truthy. The loop (`Rows.Effect` and the
`Workbook` members built on it) uses the corrected handler
`Rows.AfterSearchError`, which marks such a row `Search/warning error`. The
handler as written is `Rows.AfterSearchErrorAsWritten`; see "## Findings".

## Model

| member | source | states |
|---|---|---|
| Cells.IsMissing | pubmed_pdf_downloader.py:52 | `pd.isna`: only the blank cell is missing (an empty text or a zero is not); the missing value is NaN, which is truthy and formats as "nan" |
| Cells.Truthy | pubmed_pdf_downloader.py:87 | the `not` test: the falsy cells are exactly the empty text and zero, so NaN is truthy |
| Cells.HasComment | pubmed_pdf_downloader.py:87 | a cell carries a comment exactly when it is truthy and not a missing value |
| Cells.Render | pubmed_pdf_downloader.py:111 | the text `f"{cell}"` gives: text cells unchanged, and integer cells rendered so that `int()` reads back the same number |
| Numerals.IsSpace | pubmed_pdf_downloader.py:70 | the separators of `split()` (`str.isspace`): space, tab, newline, carriage return and no-break space are among them, and no separator is a digit or a comma |
| Numerals.TokenPrefix | pubmed_pdf_downloader.py:70 | the leading run of non-whitespace characters: a prefix of the input with no whitespace, followed by whitespace or the end |
| Numerals.FirstToken | pubmed_pdf_downloader.py:70 | `split()[0]`: absent exactly when the text is all whitespace, otherwise a non-empty token without whitespace |
| Numerals.LemmaTokenPrefixOf | pubmed_pdf_downloader.py:70 | a whitespace-free word followed by whitespace or the end is exactly the leading run |
| Numerals.LemmaFirstTokenOf | pubmed_pdf_downloader.py:70 | after leading whitespace, a whitespace-free word followed by whitespace or the end is `split()[0]` |
| Numerals.DeleteCommas | pubmed_pdf_downloader.py:70 | `replace(",", "")`: no comma remains, and every other character keeps its number of occurrences |
| Numerals.LemmaDeleteCommasAppend | pubmed_pdf_downloader.py:70 | comma removal distributes over concatenation |
| Numerals.LemmaDeleteCommasNone | pubmed_pdf_downloader.py:70 | comma removal leaves a comma-free text unchanged |
| Numerals.DigitChar | pubmed_pdf_downloader.py:70 | the digit character for a value below 10 is a digit whose value is that number |
| Numerals.DeleteUnderscores | pubmed_pdf_downloader.py:70 | dropping the underscores `int()` allows between digits leaves only digits when only digits and underscores were there |
| Numerals.ParseInt | pubmed_pdf_downloader.py:70 | `int()` of a token: accepted only when it starts with a sign or a digit, ends in a digit, and all characters after the first are digits or underscores; negative only with a minus sign |
| Numerals.ParseCount | pubmed_pdf_downloader.py:69-70 | the result count read from a summary; an all-whitespace summary has none (the search fails) |
| Numerals.Decimal | pubmed_pdf_downloader.py:70 | the decimal digits of a natural number: non-empty, digits only, and no leading zero for a positive number |
| Numerals.IntText | pubmed_pdf_downloader.py:111 | the text of an integer, with a leading minus when negative: never empty |
| Numerals.Pad3 | pubmed_pdf_downloader.py:70 | a group of three digits below a thousands separator |
| Numerals.GroupThousands | pubmed_pdf_downloader.py:69-70 | a count as the results summary prints it: begins with a digit, only digits and commas |
| Numerals.LemmaDigitsValueDecimal | pubmed_pdf_downloader.py:70 | reading the decimal digits of `n` gives `n` back |
| Numerals.LemmaDigitsAreGroups | pubmed_pdf_downloader.py:70 | a run of digits is valid `int()` input and has no underscores to drop |
| Numerals.LemmaParseIntText | pubmed_pdf_downloader.py:70 | round trip: `int()` of the text of any integer is that integer |
| Numerals.LemmaLastThreeDigits | pubmed_pdf_downloader.py:70 | the last three decimal digits of `n` are those of `n % 1000` |
| Numerals.LemmaDecimalSplit | pubmed_pdf_downloader.py:70 | the digits of `n >= 1000` are those of `n / 1000` followed by the three-digit group of `n % 1000` |
| Numerals.LemmaDeleteCommasGrouped | pubmed_pdf_downloader.py:70 | removing the commas from a grouped count gives its plain digits |
| Numerals.LemmaParseCountOfSummary | pubmed_pdf_downloader.py:69-70 | round trip: any summary made of whitespace, a grouped count, then whitespace and anything, yields exactly that count |
| Numerals.LemmaParseSummary250 | pubmed_pdf_downloader.py:69-70 | the summary "250 results" yields 250 |
| Numerals.LemmaParseSummary1000 | pubmed_pdf_downloader.py:69-70 | the summary "1,000 results" yields 1000 |
| Numerals.LemmaParseSummary5432 | pubmed_pdf_downloader.py:69-70 | the summary "5,432 results" yields 5432 |
| Numerals.LemmaParseIntNeedsDigit | pubmed_pdf_downloader.py:70 | a token without a digit (such as "No") is rejected by `int()`, so the search phase fails |
| Downloads.Matching | pubmed_pdf_downloader.py:108 | the glob: exactly the listed files whose names match `pubmed-*.*` |
| Downloads.NewestIndex | pubmed_pdf_downloader.py:110 | `max(key=getctime)`: a file no other file is newer than, and the first such in list order |
| Downloads.TargetName | pubmed_pdf_downloader.py:111 | the new name is the row's file name followed by `.txt` |
| Downloads.ChooseDownload | pubmed_pdf_downloader.py:108-112 | no rename exactly when no file matches; otherwise the newest matching file is renamed to the row's target name |
| Downloads.LemmaSingleDownload | pubmed_pdf_downloader.py:108-112 | a single matching file is the one renamed |
| Rows.Contains | pubmed_pdf_downloader.py:81 | `needle in text`: true exactly when the needle occurs at some position of the text |
| Rows.LemmaOccursAfterFirst | pubmed_pdf_downloader.py:81 | where the needle does not start the text, it occurs in the text exactly when it occurs in the text after its first character |
| Rows.ScanAlerts | pubmed_pdf_downloader.py:79-84 | the scan over the alert banners finds a quoted-phrase alert exactly when some banner contains the signal text |
| Rows.AfterSearchError | pubmed_pdf_downloader.py:86-88 | the handler as intended: the row ends with a comment; an existing comment is kept; a row with none (blank, empty or zero) becomes exactly `Search/warning error` |
| Rows.AfterSearchErrorAsWritten | pubmed_pdf_downloader.py:87-88 | the handler as written: every truthy cell is kept (a missing value included), any falsy cell becomes `Search/warning error` |
| Rows.LemmaBlankCommentKeptAsWritten | pubmed_pdf_downloader.py:87-88 | as written, a blank comment cell survives a failed search without any comment; the corrected handler marks it |
| Rows.LemmaHandlersAgreeOffBlank | pubmed_pdf_downloader.py:87-88 | the two handlers differ exactly on a blank cell |
| Rows.Skipped | pubmed_pdf_downloader.py:52 | a row is skipped exactly when its query or its file name is missing |
| Rows.Effect | pubmed_pdf_downloader.py:49-122 | one row's outcome, phase by phase: skipped rows, the navigation abort, search failures, the stored count, the cap, a failure while the alerts are read (count kept, handler's comment), the quoted warning, and the export (rename exactly when `Downloaded`); every finished row carries a comment that is terminal or its own |
| Scenarios.LemmaCapIsInclusive | pubmed_pdf_downloader.py:69-76 | a count of exactly 1000 is stored and is not `Too many results` |
| Scenarios.LemmaScenarioDownloaded | pubmed_pdf_downloader.py:49-114 | a 250-result search with one export file ends `Downloaded`, with 250 stored and that file renamed to the row's name |
| Scenarios.LemmaScenarioAlertsFailed | pubmed_pdf_downloader.py:69-88 | a 250-result search whose alert banners cannot be read stores 250, ends `Search/warning error` and renames nothing |
| Scenarios.LemmaScenarioTooMany | pubmed_pdf_downloader.py:69-76 | a 5,432-result search ends `Too many results` with 5432 stored and nothing renamed, whatever the alerts and the export |
| Styling.ColumnWidth | pubmed_pdf_downloader.py:144 | a header's column width is the larger of 15 and its length plus 5 |
| Styling.HeaderWidths | pubmed_pdf_downloader.py:139-145 | the loop over the header cells gives every column the width of its header |
| Workbook.IndexOf | pubmed_pdf_downloader.py:49-50 | a label's column position, the first one holding it; absent exactly when the table has no such column |
| Workbook.Lookup | pubmed_pdf_downloader.py:49-50 | `row.get(name)`: a column the table lacks reads as a missing value |
| Workbook.LemmaLookupAt | pubmed_pdf_downloader.py:49-50 | with unique labels, `row.get` of a column's own label is that column's cell |
| Workbook.WithColumn | pubmed_pdf_downloader.py:24-28 | ensuring a status column: the labels are kept, and the label is appended only when missing; labels stay distinct |
| Workbook.Widen | pubmed_pdf_downloader.py:24-28 | a newly added column is filled with `""` in every row; otherwise the rows are unchanged |
| Workbook.Apply | pubmed_pdf_downloader.py:71-121 | writing a row's effect: the comment and (when read) the count land in their columns, every other cell is kept |
| Workbook.LemmaAnnotateSearched | pubmed_pdf_downloader.py:60-122 | a row that is not skipped and whose page loaded, processed: a broken search leaves only the handler's comment; otherwise the count is stored and the comment is the cap's, the handler's after an alert-reading failure, the quoted warning's, or the export's, with a rename only on the export path |
| Workbook.Collect | pubmed_pdf_downloader.py:48-114 | the renames of the first steps of the loop, in order: at most one per step |
| Workbook.LemmaCollectStep | pubmed_pdf_downloader.py:48-114 | a row that does not stop the run adds its own rename, and the run still has not stopped |
| Workbook.LemmaCollectStop | pubmed_pdf_downloader.py:58 | after the step that stops the run, no further rename happens |
| Workbook.LemmaCollectFrom | pubmed_pdf_downloader.py:108-112 | every rename collected is the rename of a step before the run stopped |
| Workbook.LemmaTableCompleted | pubmed_pdf_downloader.py:48-122 | a loop that went through every row without stopping leaves each row as its step says |
| Workbook.LemmaTableStopped | pubmed_pdf_downloader.py:48-58 | a loop that stopped at row `i` leaves the earlier rows processed and row `i` and the later ones as read, and performs no rename after `i` |
| Workbook.StepsUpTo | pubmed_pdf_downloader.py:48-122 | step `i` of the first `k` rows is the loop body's step on row `i` |
| Workbook.Steps | pubmed_pdf_downloader.py:48-122 | the loop body's steps, one for every row, each the step on that row |
| Workbook.LemmaStoppedIff | pubmed_pdf_downloader.py:48-58 | the run stops within the first `k` rows exactly when one of them is not skipped and its page fails to load |
| Workbook.RunRows | pubmed_pdf_downloader.py:47-122 | the table after the loop: the same number of rows, in the same order |
| Workbook.LemmaRunRowsProcessed | pubmed_pdf_downloader.py:47-122 | each row after the loop is that row processed, unless the run stopped at or before it, when it is as read |
| Workbook.LemmaTableAt | pubmed_pdf_downloader.py:47-122 | the same for one row, for any steps that are the rows' steps |
| Workbook.LemmaRunRowsKeepsCells | pubmed_pdf_downloader.py:47-122 | the loop changes only the two status columns; every other cell of every row is kept |
| Workbook.Renames | pubmed_pdf_downloader.py:108-112 | the renames performed, in row order: at most one per row |
| Workbook.LemmaRenamesStop | pubmed_pdf_downloader.py:58 | after the row whose page fails to load, no further rename happens |
| Workbook.LemmaRenamesDownloaded | pubmed_pdf_downloader.py:108-114 | every rename moves a file matching the export pattern to the target name of a row that ends `Downloaded` |
| Workbook.LemmaRenameOfRow | pubmed_pdf_downloader.py:108-114 | a row's own rename goes to its target name, and the row ends `Downloaded` |
| Workbook.Frame.constructor | pubmed_pdf_downloader.py:19 | the table as read: its labels and rows |
| Workbook.Frame.AddColumnIfMissing | pubmed_pdf_downloader.py:24-28 | updates the table in place to `WithColumn` / `Widen` of its old state |
| Workbook.Frame.SetCell | pubmed_pdf_downloader.py:54 | `df.at[i, name] = v` changes that one cell of that one row |
| Workbook.Frame.ProcessRow | pubmed_pdf_downloader.py:49-122 | one pass of the loop body (skip check, page load, search phase, export phase): stops the run exactly on a navigation failure; otherwise the row becomes its effect applied, and the rename is the effect's |
| Workbook.Frame.SearchPhase | pubmed_pdf_downloader.py:60-89 | the search `try` block with its handler: a broken search leaves the handler's comment; otherwise the count is stored, and the export follows exactly when the count is within the cap, the alerts were read and none is a quoted-phrase alert; else the comment is the cap's, the handler's or the quoted warning's |
| Workbook.Frame.ReadCount | pubmed_pdf_downloader.py:60-71 | the count is the parsed summary unless the search broke; a count read is stored in its column, and otherwise the handler runs |
| Workbook.Frame.CheckAlerts | pubmed_pdf_downloader.py:78-89 | the export follows exactly when the alerts were read and none contains the signal text; a quoted-phrase alert leaves `Quoted phrase warning` (the handler keeps it), a failure to read them leaves the handler's comment |
| Workbook.Frame.OnSearchError | pubmed_pdf_downloader.py:86-88 | the handler writes only the row's comment: kept when the row has one, otherwise `Search/warning error` |
| Workbook.Frame.ExportPhase | pubmed_pdf_downloader.py:90-122 | the export `try` block: the rename is the newest matching file's, none when the export failed; the row is marked `Downloaded` exactly when a rename happens, else `Download error` |
| Workbook.Frame.Advance | pubmed_pdf_downloader.py:48-122 | one iteration on a row still as read: it halts exactly when the row's step does, the row becomes the step's row unless it halted, the rename is the step's, and no other row changes |
| Workbook.Frame.ProcessRows | pubmed_pdf_downloader.py:47-124 | the loop leaves the table equal to `RunRows`, performs exactly `Renames`, and reports the abort exactly when some row's page failed to load |
| Workbook.Frame.RunSteps | pubmed_pdf_downloader.py:47-124 | the loop following the rows' steps: the table it leaves, the renames it performs and the abort it reports are those of the steps |
| Workbook.Frame.ProcessExcel | pubmed_pdf_downloader.py:24-145 | the whole procedure: both status columns ensured, the loop run on the widened table, then every header's width computed, whether or not the loop stopped |

## Left out

- The browser (Selenium): page loads, waits, timeouts, clicks, key presses and sleeps. What they produce for a row is an input (`PageOutcome`), with one case per point where a failure changes the row's result: the page load, the search before its summary is read, the reading of the alert banners after the count is stored, and the export. Failures at different steps within one of these stretches are not told apart, since they leave the same row.
- The file system: creating the download directory, and the listing's ctimes, are inputs. A failed `shutil.move` is folded into the export failure it causes. The download directory's contents are not carried from one row to the next: each row's listing is given whole.
- Reading and writing the workbook (pandas, openpyxl): a file that cannot be read returns before anything else. Saving, fonts, fills, alignment, column letters and data-cell wrapping are left out; only the width rule is modelled.
- `driver.quit()`, the progress messages, and the exception that leaves `process_excel` after a navigation failure (the model reports it as `aborted`).
- The web front end (`app.py`) is not part of this model.
- Cells.Cell: floating-point cells are not modelled (a count is stored as an integer; other numbers appear only as integers).
- Numerals.ParseInt: non-ASCII Unicode digits, which Python's `int()` also accepts, are not modelled.
- Downloads.Matching: the glob is matched case-sensitively on the ASCII pattern only. Hidden files and the directory part of the path are not modelled.
- Rows.Effect: applies the corrected search-error handler (see "## Findings"): a row whose comment cell is blank and whose search fails ends `Search/warning error`, where the code as written leaves the cell blank.
- Workbook.Frame.ProcessRow: applies the same corrected handler (the test `HasComment`), so the same blank-cell row ends `Search/warning error` here, where the code as written leaves it blank.
- Workbook.Frame.OnSearchError: is the corrected handler (the test `HasComment`), so a blank comment cell becomes `Search/warning error` here, where the code as written leaves it blank.
- Workbook.Frame.ReadCount: a broken search runs the corrected handler, so the same blank-cell row ends `Search/warning error` here, where the code as written leaves it blank.
- Workbook.Frame.SearchPhase: a broken search or a failure to read the alerts runs the corrected handler, so the same blank-cell row ends `Search/warning error` here, where the code as written leaves it blank.
- Workbook.Frame.CheckAlerts: a failure to read the alerts runs the corrected handler, so the same blank-cell row ends `Search/warning error` here, where the code as written leaves it blank.
- Workbook.LemmaAnnotateSearched: describes the row under the corrected handler, so the same blank-cell row ends `Search/warning error` in its broken-search and alert-failure cases, where the code as written leaves it blank.
- Reading the table: `pd.read_excel` maps an empty cell and the default NA spellings (`NA`, `N/A`, `NULL`, `null`, `None`, `nan`, `#N/A` and the like) to NaN. The model does not perform this conversion. The table it is given must already hold `Missing` for such cells, as the reader would produce.
- File paths: only the target name is modelled. The destination path joins it to the download directory's path, so a file name that is absolute or contains `../` would land outside that directory; path handling is not modelled.
- Numerals.ParseCount: its own contract states only the all-whitespace case; what it reads from a well-formed summary is stated by `Numerals.LemmaParseCountOfSummary`.

## Findings

| source | as written | input that shows it | evidently intended | confidence | as-written member | corrected member |
|---|---|---|---|---|---|---|
| pubmed_pdf_downloader.py:87-88 | `if not df.at[index, 'Comment']` treats a NaN cell as truthy and keeps it | a sheet that already has a `Comment` column with a blank cell on a row whose search fails: the row ends with no comment | a row without a comment is marked `Search/warning error` | not executed | Rows.AfterSearchErrorAsWritten, Rows.LemmaBlankCommentKeptAsWritten | Rows.AfterSearchError |
