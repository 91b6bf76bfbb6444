# E-Way Bill scraper: a Dafny model of its pure core

The E-Way Bill scraper runs in two processes.

- A Streamlit front end (`streamlit_ui.py`) collects the job: login, GSTINs, month range and the three stages.
- A worker (`scraper_worker.py`) drives the government portal in a browser. It downloads the e-way bill reports of every GSTIN, month and state group, and opens the detail page of every bill. It then builds a stock statement workbook: one sheet per 4-digit HSN prefix, with running balances. Finally it merges that workbook's sheets and appends the toll-plaza data of every bill.

This project models the deterministic logic of both processes as pure Dafny functions over immutable values, and proves what that logic guarantees. Browser pages, files and the clock become parameters. The modules follow the program's stages:

| module | file | what it models |
|---|---|---|
| `Wrappers` | `wrappers.dfy` | `Option` and `Result` |
| `Text` | `text.dfy` | Python's `str(n)`, `f"{n:02d}"`, `split`, `join`, `strip`, `in`, `upper` |
| `Seqs` | `seqs.dfy` | `list.index`, filtering, `drop_duplicates`, stable sort, sorted distinct keys |
| `Calendar` | `calendar.dfy` | month names, `get_days_in_month`, `get_month_year_range` |
| `Fetch` | `fetch.dfy` | direction selector, date fields, state groups, download names, the search loop |
| `DetailPage` | `detail_page.dfy` | the shape of a bill's detail page, its saved file, collecting files by name |
| `Reconcile` | `reconcile.dfy` | quantity split, inner join, time order, the quantity correction, purchase/sale sides |
| `StockSheet` | `stock_sheet.dfy` | HSN grouping, S.No / opening / closing / total stock, the two formulas, the workbook |
| `Aggregate` | `aggregate.dfy` | sheet merge with de-duplication, toll tables, `ewb` column first, `TollUniq` |
| `JobForm` | `job_form.dfy` | GSTIN parsing, year/month choices, date range, start guards, `load_config` |

## Modelling choices

- "Today" is a `Calendar.Date` parameter.
- Quantities and money are exact `real`s.
- A bill's timestamp is an abstract `int` that orders as the timestamps do.
- A pandas frame is an ordered column list plus rows. Each row maps column names to cells, and a missing entry stands for pandas' missing value.
- The stock-statement formulas are structured values (`CellRef`, `Lookup`). Their text is rendered and parsed back, so the round trip is proved rather than assumed.
- The quantity correction `Qty > 100 ⇒ Qty / 1000` appears twice in the code (`scraper_worker.py:502` and `:506`), and the model applies it twice: 150 becomes 0.15, and 200000 becomes 0.2.
- The statement workbook carries the states formula as the code writes it, with the row number as VLOOKUP's column index. A corrected workbook with column index 2 is modelled beside it (see "## Findings").
- An empty table cell, and the placeholder's empty quantity, read back from the saved spreadsheet as a missing value, which pandas turns into the text "nan".
- The code has seven state groups (option values "1" to "7"; "0" is the placeholder), and the model has seven.
- The purchase and sale sides are emptied independently, by whether the supplier or the recipient text contains the GSTIN. A bill can therefore keep both sides or lose both. `Reconcile.SidesByParty` states all four cases.

## Model

| member | source | states |
|---|---|---|
| Calendar.MonthNumber | scraper_worker.py:18-23 | a name has a number exactly when it is one of the twelve full English month names, and that number's name is the given name |
| Calendar.MonthNumberOfName | scraper_worker.py:105-108 | name-to-number and number-to-name are inverse, as the reverse dictionary relies on |
| Calendar.DaysInMonth | scraper_worker.py:59 | a month has 28 to 31 days, and 29 exactly for February of a Gregorian leap year |
| Calendar.YearLength | scraper_worker.py:59 | the twelve month lengths add up to 365, or 366 in a leap year |
| Calendar.LoopGuardIsIndexBound | scraper_worker.py:112 | the while-condition on (year, month) is the comparison of consecutive month indices |
| Calendar.PeriodsBetween | scraper_worker.py:110-121 | the loop with its December roll-over yields every month from start to end inclusive, 12·(endYear−startYear)+(endMonth−startMonth)+1 of them, or none when start is after end |
| Calendar.MonthYearRange | scraper_worker.py:101-124 | an unknown month name gives the empty list; otherwise the result is the inclusive month range |
| Calendar.PeriodRangeChronological | scraper_worker.py:101-124 | the period list is strictly chronological and has no duplicates |
| Calendar.LastDayOfPeriod | scraper_worker.py:50-59 | there is a last day exactly when the month name is known |
| Calendar.LastDayOfPeriodInMonth | scraper_worker.py:50-59 | the last day is a valid day of the period's month: today's day in the current month, the Gregorian length otherwise (29 for a leap February) |
| Fetch.ParseDirection | scraper_worker.py:29-30 | only the texts "In" and "Out" name a direction, and each names exactly one |
| Fetch.RadioSelector | scraper_worker.py:140-147 | "In" and "Out" give the inward and outward radio buttons; any other text fails with the ValueError message, "❌ Invalid radio button type: " followed by the text |
| Fetch.RadioSelectorSeparatesDirections | scraper_worker.py:140-147 | the two directions click different buttons |
| Fetch.MonthNumberOrJanuary | scraper_worker.py:135-137 | a known month's number, and January for an unknown name |
| Fetch.DateTextFields | scraper_worker.py:155-156 | a `dd/mm/yyyy` text has '/' at positions 2 and 5, and its three fields read back as day, month and year |
| Fetch.SearchDateFields | scraper_worker.py:150-156 | the from-date is "01" with the to-date's month and year; the to-date reads back as the last day, the month number (01 for unknown names) and the year |
| Fetch.QueriedStates | scraper_worker.py:244-246 | exactly the drop-down options other than "0" are searched, in drop-down order |
| Fetch.PortalStateGroups | scraper_worker.py:32-41 | the portal's options yield the seven state groups after the placeholder |
| Fetch.StateNamesDistinct | scraper_worker.py:32-41 | the seven group names are pairwise different |
| Fetch.DownloadNameRoundTrip | scraper_worker.py:193 | for a GSTIN and month name without '_', `<dir>_<gstin>_<year>_<month>_<state>` decodes back to its direction, GSTIN, year, month and state group |
| Fetch.DownloadNameInjective | scraper_worker.py:193 | for GSTINs and month names without '_', two searches share a file name only if they are the same search |
| Fetch.PeriodSearches | scraper_worker.py:237-257 | a period with a known month gets one search per state group, in group order; an unknown month name stops the loop |
| Fetch.PeriodSearchesDates | scraper_worker.py:238-240 | every search of a period submits the period's from-date and its to-date for the period's last day |
| Fetch.PeriodSearchesDateFields | scraper_worker.py:150-156 | read back, a period's search covers day 01 to the period's last day of the period's own month and year, and that last day is a real day of the month |
| Fetch.PeriodsSearchesStop | scraper_worker.py:237-265 | the loop stops early exactly when some period's month name is unknown |
| Fetch.PeriodsSearchesCount | scraper_worker.py:237-257 | without an early stop there is one search per group and period |
| Fetch.GstinSearchCount | scraper_worker.py:222-257 | with "In" or "Out" and known months a GSTIN gets 7 searches per period |
| Fetch.PeriodsSearchesPeriods | scraper_worker.py:237-240 | every search is for one of the listed periods |
| Fetch.SearchKeysDistinct | scraper_worker.py:237-257 | over distinct periods and distinct group names every search has its own key |
| Fetch.GstinSearchFilesDistinct | scraper_worker.py:193-205 | the searches of one GSTIN and direction never overwrite each other's downloaded file |
| Fetch.SearchDownloadRoundTrip | scraper_worker.py:193-206 | a file is saved exactly when the export button is shown, and for a GSTIN and month name without '_' its path in the downloads directory reads back as the search's direction, GSTIN, period and state group |
| Fetch.InwardSetupFailureSkipsOutward | scraper_worker.py:213-265 | as written, an inward run whose setup fails raises out of the function, so for that GSTIN no outward report is searched and the downloads are not merged; with the corrected handler the outward run still makes its 7 searches per period and the merge is reached |
| Fetch.ExtractionRunsEachDirection | scraper_worker.py:750-758 | with the corrected handler, each direction whose setup succeeds runs all its searches whatever happened to the other, and the merge step is always reached |
| DetailPage.Classify | scraper_worker.py:360-400 | the item table wins; otherwise an IRN button with a dialog gives the placeholder, one without a dialog but with the IRN table gives the IRN table, and anything else gives nothing |
| DetailPage.ClassifySavesFile | scraper_worker.py:360-400 | a file is saved exactly when the item table shows, or the IRN button shows with a dialog or an IRN table behind it |
| DetailPage.Extract | scraper_worker.py:360-398 | the saved file carries the bill, the header cells and the rows of the table that was found; the placeholder has one row with empty cells |
| DetailPage.MatchFileName | scraper_worker.py:415-417 | a collected name has twelve leading digits and one of the three suffixes |
| DetailPage.FileNameRoundTrip | scraper_worker.py:364 | the file of a twelve-digit bill (`<ewb>.xlsx`, `_irn`, `_dist`) is collected under its bill and shape |
| DetailPage.ShortNumberNotCollected | scraper_worker.py:415-417 | a file of a bill number with fewer than twelve digits is never collected |
| DetailPage.LongNumberNotCollected | scraper_worker.py:415-417 | a file of a bill number with more than twelve digits is never collected |
| DetailPage.RowsOfShapeComplete | scraper_worker.py:424-432 | every row of a collected file is among the collected rows |
| DetailPage.CollectRowsExact | scraper_worker.py:415-478 | for twelve-digit bills the collected rows are exactly the rows of the saved files |
| Reconcile.SplitQuantity | scraper_worker.py:484-489 | number and unit hold no space and together are no longer than the quantity text |
| Reconcile.SplitQuantityOfPair | scraper_worker.py:484-489 | "q u" splits into upper-cased q and upper-cased u |
| Reconcile.SplitQuantityBare | scraper_worker.py:484-489 | a quantity without a unit splits into the upper-cased number and an empty unit |
| Reconcile.ParseTokenOfNat | scraper_worker.py:487 | a whole number's text reads back as that number |
| Reconcile.ParseTokenOfDecimal | scraper_worker.py:487 | `w.f` reads back as w plus f/10^len(f) |
| Reconcile.PrepareAll | scraper_worker.py:483-489 | preparing succeeds exactly when every quantity parses, and then keeps every row |
| Reconcile.InnerJoinMultiplicity | scraper_worker.py:493 | a pair of a report row and a detail row of the same bill occurs once per copy of the report row times copy of the detail row, as pandas' merge keeps duplicates on both sides; a pair of different bills never occurs |
| Reconcile.InnerJoinDropsUnmatched | scraper_worker.py:493 | a bill missing on either side contributes no row |
| Reconcile.CorrectQtyCases | scraper_worker.py:502-506 | up to 100 a quantity stays, up to 100000 it is divided by 1000, above that by 10^6, and a missing one stays missing |
| Reconcile.SidesByParty | scraper_worker.py:509-522 | a bill only the recipient text names adds its corrected quantity (missing counts as 0) to the stock, one only the supplier text names takes it away, and one both or neither name leaves the stock unchanged; a named side is empty and an unnamed side carries the report's value, tax and vehicle |
| Reconcile.OneSidedBills | scraper_worker.py:509-519 | an inward bill keeps only its purchase side and an outward bill only its sale side |
| Reconcile.StockRows | scraper_worker.py:483-506 | the step fails exactly when a quantity does not parse |
| Reconcile.StockRowsJoin | scraper_worker.py:493-501 | the rows are in time order and are a permutation of the joined pairs' stock rows: every pair, duplicates included, gives exactly one row |
| Reconcile.EmptyCellIsMissing | scraper_worker.py:451-487 | an empty quantity cell, or an empty unit cell of an IRN row, reads back as a missing quantity, which counts as 0 |
| Reconcile.FilledCellsSplit | scraper_worker.py:451-489 | filled IRN cells read back as the upper-cased number and unit, and an item-table quantity as the upper-cased number with no unit |
| StockSheet.Hsn4 | scraper_worker.py:494 | the key is the first four characters of the HSN code, or all of a shorter one |
| StockSheet.GroupsPartition | scraper_worker.py:531-537 | the HSN4 keys are distinct; each group is non-empty and holds exactly the rows of its key, every copy of a repeated row as often as the rows hold it; time order is kept within each group |
| StockSheet.CumNetIsBalance | scraper_worker.py:539 | the cumulative sum after n rows is their purchases minus their sales |
| StockSheet.SerialAndTotal | scraper_worker.py:538-541 | S.No runs 1..n, and TotalStock = OB + Pur |
| StockSheet.OpeningBalances | scraper_worker.py:540 | OB[0] = 0 and OB[i+1] = CB[i] |
| StockSheet.ClosingBalances | scraper_worker.py:539-540 | CB[i] = OB[i] + Pur[i] − Sale[i], and the last CB is all purchases minus all sales |
| StockSheet.RowAtBalances | scraper_worker.py:538-541 | row i's OB and CB are the cumulative nets before and including it |
| StockSheet.SheetRows | scraper_worker.py:537-548 | one statement row per group row, carrying its bill, time, purchase and sale |
| StockSheet.CorrectedSheetRows | scraper_worker.py:537-548 | the same rows with every states lookup inside the two-column `TollUniq` range |
| StockSheet.BillColumnIsD | scraper_worker.py:548 | "EWB No." is the fourth column of the statement, spreadsheet column D |
| StockSheet.RefTextRoundTrip | scraper_worker.py:546-547 | a cell reference such as `D7` reads back as its column and row |
| StockSheet.VlookupRoundTrip | scraper_worker.py:547 | a VLOOKUP formula text reads back as its key cell, range and column index |
| StockSheet.TollLinkRoundTrip | scraper_worker.py:546 | both references of the HYPERLINK/INDEX/MATCH formula read back as the row's bill cell |
| StockSheet.StatesLookupAsWrittenOutOfRange | scraper_worker.py:545-547 | as written, every row from the second data row on asks VLOOKUP for a column outside the two-column TollUniq range |
| StockSheet.StatesLookupAsWrittenRow3 | scraper_worker.py:545-547 | the second data row's formula is `=VLOOKUP(D3,TollUniq!A:B,3,FALSE)`, out of range |
| StockSheet.StatesLookupInRange | scraper_worker.py:547 | with column index 2 every row's lookup returns the TollUniq states column |
| StockSheet.FormulasReferToOwnRow | scraper_worker.py:545-548 | as written, the row at position i refers to cell D(i+2) in both formulas, its lookup's column index is i+2, and that lookup stays inside `TollUniq!A:B` only for the first data row |
| StockSheet.CorrectedFormulasInRange | scraper_worker.py:547 | with the corrected lookup every row looks its own bill cell up in column 2 of `TollUniq!A:B`, and nothing else on the row changes |
| StockSheet.Statement | scraper_worker.py:531-550 | one sheet per HSN4 key, named by it, in first-appearance order, holding the written rows of its group; no joined rows means the step fails and nothing is written |
| StockSheet.CorrectedStatement | scraper_worker.py:531-550 | the same sheets holding the corrected rows of each group |
| StockSheet.CorrectedStatementOnlyFixesStates | scraper_worker.py:545-548 | the corrected workbook has the written workbook's sheets, row for row, differing only in the states lookup, which is in range on every row, where the written one is out of range from the second data row on |
| StockSheet.StatementCoversRows | scraper_worker.py:531-537 | every row is on the sheet of its own prefix, and sheet names are pairwise distinct |
| Aggregate.SetColumnCells | scraper_worker.py:580 | `df[name] = value` puts value in that column of every row and changes no other cell |
| Aggregate.Concat | scraper_worker.py:591 | the concatenation's rows are the input frames' rows and as many as they hold together, and its columns are the union of theirs without repeats |
| Aggregate.ConcatRowsAt | scraper_worker.py:591 | row i of frame k sits at position (rows of the frames before k) + i: the frames follow one another, each keeping its row order and duplicates |
| Aggregate.ConcatRowOrigin | scraper_worker.py:591 | every position of the concatenation is such a position of one frame, so it holds nothing else |
| Aggregate.DropDuplicates | scraper_worker.py:594 | no two rows are equal, no row is lost as a value, and the count does not grow |
| Aggregate.DropDuplicatesIdempotent | scraper_worker.py:594 | de-duplicating twice changes nothing |
| Aggregate.SheetMerge | scraper_worker.py:568-598 | no sheets means nothing is written; otherwise the merged table has a SheetName column, no duplicate rows and at most the input's row count |
| Aggregate.SheetMergeCovers | scraper_worker.py:579-594 | every row of every sheet, tagged with its sheet's name, is in the merged table |
| Aggregate.SheetMergeSound | scraper_worker.py:579-594 | every merged row is a tagged row of some sheet |
| Aggregate.SheetMergeIdempotent | scraper_worker.py:594 | de-duplicating the merged table again changes nothing |
| Aggregate.TollTable | scraper_worker.py:694-701 | a toll table is saved exactly when it has at least 3 columns once `ewb` is added |
| Aggregate.TollTableRows | scraper_worker.py:694 | every row of a saved toll table carries its bill number |
| Aggregate.MoveToFront | scraper_worker.py:638 | the moved element comes first, and the result is a permutation of the input |
| Aggregate.MoveBackOfMoveToFront | scraper_worker.py:638 | moving back after moving to the front restores the list |
| Aggregate.MoveToFrontOfMoveBack | scraper_worker.py:638 | moving to the front after moving back restores the list |
| Aggregate.MoveToFrontKeepsOrder | scraper_worker.py:638 | the other elements keep their relative order |
| Aggregate.EwbFirst | scraper_worker.py:636-641 | rows untouched; columns permuted with `ewb` first when present, and unchanged otherwise |
| Aggregate.EwbFirstIdempotent | scraper_worker.py:636-641 | moving `ewb` first twice is the same as once |
| Aggregate.EwbFirstReversible | scraper_worker.py:636-641 | putting `ewb` back at its old position restores the original column order |
| Aggregate.StatePairs | scraper_worker.py:656-657 | the distinct (ewb, State) pairs whose state is present and non-empty |
| Aggregate.BilledExactly | scraper_worker.py:656-658 | a bill is among the pairs exactly when one of its rows has a non-empty state |
| Aggregate.TollUniqOneEntryPerBill | scraper_worker.py:658 | TollUniq has one entry per bill, in ascending bill order |
| Aggregate.TollUniqBills | scraper_worker.py:655-658 | a bill has an entry exactly when some row of it has a non-empty state |
| Aggregate.TollUniqStates | scraper_worker.py:656-658 | splitting an entry at commas gives each of the bill's non-empty states exactly once |
| Aggregate.ReadTablesAppend | scraper_worker.py:621-627 | the tables are read in file order: a readable file appends its table after the earlier ones, and an unreadable one adds nothing |
| Aggregate.MergeToll | scraper_worker.py:617-662 | no toll files means nothing is written, and a missing statement means nothing is appended; otherwise TollData holds the concatenation of the read tables' rows, in file order, and the union of their columns with `ewb` first, and TollUniq is written exactly when both `ewb` and `State` exist, holding the per-bill states of TollData's rows |
| JobForm.NewlinesToCommasJoin | streamlit_ui.py:341-347 | a newline-joined list reads as the same list joined by commas |
| JobForm.StrippedNonEmptyMembers | streamlit_ui.py:347 | the kept entries are exactly the non-empty stripped pieces |
| JobForm.ParseGstins | streamlit_ui.py:347 | no entry is empty, holds a comma or newline, or has whitespace at either end |
| JobForm.ParseGstinsExactly | streamlit_ui.py:347 | an entry is in the list exactly when it is a non-empty stripped piece of the text split at commas and newlines |
| JobForm.ParseGstinsAppend | streamlit_ui.py:347 | a comma or newline between two texts separates their GSTINs: the list of the whole is the first text's list followed by the second's, in order, repeats kept |
| JobForm.ParseGstinsOnePiece | streamlit_ui.py:347 | a text without separators gives its stripped self, or nothing when it is all whitespace |
| JobForm.ParseGstinsOfJoin | streamlit_ui.py:341-347 | well-formed GSTINs joined by newlines (the pre-filled box) or by commas parse back to the same list |
| JobForm.YearOptions | streamlit_ui.py:315 | the years 2017 to the current year, ascending |
| JobForm.MonthOptions | streamlit_ui.py:321 | all twelve months before the current year, January to the current month otherwise, in calendar order |
| JobForm.MonthOptionsNotInFuture | streamlit_ui.py:321-325 | a month is offered exactly when it does not lie after the current month |
| JobForm.MonthStart | streamlit_ui.py:330 | the start date is the first valid day of the start month |
| JobForm.MonthEnd | streamlit_ui.py:331 | the end date is the last valid day of the end month |
| JobForm.SelectedRange | streamlit_ui.py:329-331 | a range exists exactly when both names are months; the start date is day 1 of the start month and year, and the end date is the last valid day of the end month and year |
| JobForm.RangeInvalidExactly | streamlit_ui.py:330-336 | the end date precedes the start date exactly when the end month precedes the start month |
| JobForm.LoadConfig | streamlit_ui.py:250-271 | the URL is always the fixed login URL; a missing file or one that is not valid JSON gives no credentials or GSTINs, the current month, last year to this year, and all stages on |
| JobForm.LoadEmptyIsDefault | streamlit_ui.py:254-271 | a file without fields loads like a missing file |
| JobForm.LoadSavedRoundTrip | streamlit_ui.py:254-266 | a configuration written by the start button loads back unchanged apart from the URL |
| JobForm.DefaultsSelectable | streamlit_ui.py:259-262 | the default years and months are among the offered choices |
| JobForm.Start | streamlit_ui.py:372-401 | empty username, password or GSTIN list refuses first; then a reversed range refuses; otherwise the written job holds the form's URL, credentials, months, years and stage flags, the parsed non-empty GSTINs, and the selected dates in order |
| JobForm.StartedJobReloads | streamlit_ui.py:341-392 | a started job's configuration loads back unchanged apart from the URL, and its GSTINs, pre-filled one per line, parse back to the list the form gave |
| Text.StripEnds | streamlit_ui.py:347 | `strip()` leaves no whitespace at either end |
| Text.StripEmpty | streamlit_ui.py:347 | `strip()` gives "" exactly for all-whitespace text |
| Text.SplitJoin | streamlit_ui.py:347 | a non-empty list of pieces without the separator survives join-then-split |
| Text.FormatIntRoundTrip | scraper_worker.py:155-156 | every zero-padded rendering of an integer reads back as that integer |

## Left out

- Browser automation is not modelled: login with the manual CAPTCHA/OTP wait (`scraper_worker.py:62-98`), clicking and typing (`213-265`), and reading the detail and toll pages (`334-403`, `669-712`). Only the branch decisions and the ≤2-column rule are kept. What the page shows is a parameter (`DetailPage.PageView`, the toll `Frame`).
- The .xls→.xlsx conversion through Excel COM (`scraper_worker.py:267-293`) and the report merge `xlsx_merge` are not modelled: they are a foreign engine and file plumbing.
- Reading, writing, globbing and deleting files is not modelled, and neither is the log writer (`scraper_worker.py:43-47`). Files are given as in-memory values: the collected detail files, and `found` for the toll files, where `None` stands for an unreadable file. The detail files are the directory after any overwrite: a bill listed twice in the merged report (`scraper_worker.py:778-780`) is visited twice, and its second saved file replaces the first (`scraper_worker.py:364`). `files` stands for that directory, one file per saved name.
- Rounding to two decimals (`scraper_worker.py:542-544`) is not modelled; balances are exact reals.
- Timestamp parsing (`scraper_worker.py:497-500`) is not modelled. The timestamp is an ordered integer.
- The pre-sort by (ewb, HSNCode) (`scraper_worker.py:492`) is not modelled. The DateTime sort is a stable sort; pandas' default sort is not stable, so rows with equal timestamps may come out in another order there.
- Reconcile.ParseToken: reads an optional sign, a decimal number, or "NAN". Python's `float` also accepts exponents, "inf", surrounding whitespace and digit-group underscores ("1_000"), which are not modelled.
- Text.Upper: upper-cases ASCII letters only; Python also upper-cases non-ASCII letters.
- An empty header text (distance, transaction type, addresses) also reads back from the saved spreadsheet as a missing value. The model carries it as the empty text.
- Browser failures inside the period loop (a date field or the drop-down not found in time) are not modelled. Only a failure before the loop is, through `setupOk`, because its handler misbehaves (see "## Findings").
- Reconcile.InnerJoin: the join's own contract states membership only. Multiplicities are stated by `Reconcile.InnerJoinMultiplicity`, and the report-row order of the pairs is not stated.
- The taxable-amount columns are not modelled; they are dropped before the statement's columns are chosen.
- The KeyError that a missing expected column raises in pandas is not modelled; the frames are assumed to hold the columns the code selects.
- The swallowed exception when one HSN sheet cannot be written (`scraper_worker.py:550-553`) is not modelled: every group gets its sheet.
- Reconcile.SidesByParty: the GSTIN is matched as literal text. pandas' `str.contains` reads its pattern as a regular expression by default, which differs only for a GSTIN holding regular-expression metacharacters.
- Aggregate.Concat: union columns are in first-appearance order and the row cells are kept as maps. pandas' ordering of non-aligned columns can differ.
- Aggregate.TollUniqRows: only numeric bill numbers are grouped. The source writes every `ewb` cell from an integer bill number. A non-text state cell (on which `','.join` raises) counts as missing here.
- Aggregate.MergeToll: the `if_sheet_exists='replace'` write into the existing workbook, and errors raised while writing (`scraper_worker.py:663-666`), are not modelled.
- Streamlit rendering, styling, log tailing and auto-refresh (`streamlit_ui.py:28-247`, `462-505`) are not modelled, and neither is launching the worker (`streamlit_ui.py:274-293`). Writing `config.json` and the log line are outputs: `JobForm.Start` returns the job instead.
- JobForm.Start: the ISO date strings of the written file are kept as `Calendar.Date` values.
- JobForm.LoadConfig: JSON values of unexpected types are not modelled, and neither is the ValueError the select boxes raise for a saved year or month not on offer. `JobForm.DefaultsSelectable` shows the defaults are on offer.
- `main()` (`scraper_worker.py:715-820`) is not modelled beyond the per-GSTIN order of inward run, outward run and merge (`scraper_worker.py:755-761`, `Fetch.ExtractionAsWritten`): it orchestrates the stages, swallows their exceptions and sleeps. `run_streamlit_cli.py` is not modelled either; it only launches the UI.

## Findings

| source | as written | input that shows it | evidently intended | confidence | as-written member | corrected member |
|---|---|---|---|---|---|---|
| scraper_worker.py:547 | `=VLOOKUP(D{excel_row},TollUniq!A:B,{excel_row},FALSE)` uses the spreadsheet row number as the column index | the second data row (row 3) gets `=VLOOKUP(D3,TollUniq!A:B,3,FALSE)`: column 3 of a two-column range, an error value instead of the bill's states | column index 2, the `State` column of `TollUniq`, on every row | high; not executed | StockSheet.StatesLookupAsWrittenRow3 | StockSheet.CorrectedStatementOnlyFixesStates |
| scraper_worker.py:264-265 | the handler of `download_EWB_for_gstin` logs `month_year[0]` and `month_year[1]`, a variable the period loop binds | the inward radio button or the GSTIN box not found in time: the handler itself raises `UnboundLocalError`, which escapes, and `main` skips that GSTIN's outward downloads and the merge | log the failure and return, so that the outward run and the merge still happen | high; not executed | Fetch.InwardSetupFailureSkipsOutward | Fetch.ExtractionRunsEachDirection |
