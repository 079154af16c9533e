# Coding-assessment practice apps, modelled in Dafny

This project models the logic of four small browser applications:

- **`question-1-data-cleaning`: a CSV data cleaner.**
  - It parses an uploaded CSV text into row records.
  - It keeps a cleaned view of those rows.
  - It removes rows whose every field is blank.
  - It repairs e-mail addresses that fail the address pattern: a spelled-out `" at "`, a missing dot, repeated `@`.
  - It reformats US phone numbers.
  - It keeps running statistics.
- **`question-2-dashboard`: a sales dashboard.**
  - It pages a transaction table five rows at a time, with previous/next buttons.
  - It filters by free text or by status.
  - It toggles a date sort.
  - It keeps an activity feed capped at ten entries.
- **`question-3-data-ui`: a spreadsheet viewer.**
  - It loads one sheet as rows of cells.
  - It filters by a search term or by one column, always keeping the header row.
  - It edits cells in place.
  - It reports row and column counts.
  - It collects at most twenty chart points.
- **`question-4-integration`: an integration hub.**
  - It registers data sources and keeps one refresh timer per source.
  - It refreshes a source (loading, then connected or failed).
  - It keeps a sliding twenty-point chart window.
  - It counts connected sources and sources holding data.
  - It derives the connection banner.
  - It formats the "time ago" label and the `hh:mm:ss` uptime clock.

## Modules

Each module follows the form of its source file.

- **`Text`** (`text.dfy`) holds the string operations that the JavaScript takes from its runtime:
  - `trim` and `toLowerCase` (`Lower` covers ASCII letters only);
  - `includes`, `split` and `join`;
  - `replace`;
  - decimal `toString` and `padStart(2, '0')`.
- **`CleaningRules`** (`rules.dfy`) holds the per-value repair rules of the cleaner. These are pure functions of one field value:
  - the e-mail pattern `^[^\s@]+@[^\s@]+\.[^\s@]+$`;
  - the three e-mail repairs;
  - phone-number formatting;
  - which column names each rule targets.
- **`DataCleaning`** (`cleaning.dfy`) models the cleaner's global state as the class `Cleaner`.
  - The raw rows are one shared `array` of records. The cleaned data is a sequence of positions into that array. This reproduces the source's shallow copy (`[...rawData]`): a repair made through the cleaned view changes the raw row as well.
  - Each stage is a method. Each method is proved against a function of the old state (`KeepNonEmpty`, `RepairAt`, `FixTotal`), and lemmas are proved about those functions.
- **`Dashboard`** (`dashboard.dfy`) covers the paging, filter, sort and feed state, kept in the class `Page`.
- **`DataUI`** (`dataui.dfy`) models the viewer as the class `SheetView`.
  - Rows are objects (`Row`), so a filtered view and the loaded sheet share rows, as JavaScript arrays of arrays do.
  - A hole that `saveCell` creates past the end of the view is `None`.
- **`Integration`** (`integration.dfy`) models the hub with these classes:
  - `Hub` holds the sources map, the timer-handle map and the set of running handles;
  - `Source` holds each source's mutable record;
  - `ChartData` holds the chart window. Ghost histories of every pushed label and value make the window's meaning provable.

Two behaviours of the code are kept as written:
- `emailsFixed` and `phonesFixed` are assigned per call, not accumulated.
- The "copy" of the raw data is shallow, so the original rows are not preserved once repairs run.

## Model

| member | source | states |
|---|---|---|
| Text.Trim | question-1-data-cleaning/script.js:53 | The result has no leading or trailing whitespace (ECMAScript WhiteSpace and LineTerminator set) and is no longer than the input |
| Text.TrimStart | question-1-data-cleaning/script.js:58 | The result is a suffix of the input, starts with a non-space, and everything dropped was whitespace |
| Text.TrimEnd | question-1-data-cleaning/script.js:58 | The result is a prefix of the input, ends with a non-space, and everything dropped was whitespace |
| Text.TrimRemovesBlankEnds | question-1-data-cleaning/script.js:60 | The trimmed string is the input with only whitespace removed at the two ends |
| Text.TrimEmptyIffBlank | question-1-data-cleaning/script.js:58 | `s.trim() === ''` holds exactly when every character of s is whitespace |
| Text.LowerChar | question-1-data-cleaning/script.js:196 | Each capital A-Z becomes the small letter at the same place in the alphabet; every other character is kept |
| Text.Lower | question-1-data-cleaning/script.js:189 | Lower-casing keeps the length and lowers each character in place |
| Text.IndexFrom | question-1-data-cleaning/script.js:199 | The result is the first occurrence at or after `from`, or None exactly when there is none |
| Text.ContainsIffFound | question-1-data-cleaning/script.js:199 | `includes` holds exactly when a search finds an occurrence |
| Text.ReplaceFirst | question-1-data-cleaning/script.js:200 | A string replace rewrites only the first occurrence and leaves a string without the pattern unchanged |
| Text.CountCharConcat | question-1-data-cleaning/script.js:209 | Character counts add up over concatenation |
| Text.NoCharCount | question-1-data-cleaning/script.js:209 | A string without the character counts zero of it |
| Text.CountCharPositive | question-1-data-cleaning/script.js:209 | The count of a character is positive exactly when it occurs |
| Text.Split | question-1-data-cleaning/script.js:52 | `split` yields at least one piece, no piece holds the separator, and joining the pieces gives back the input |
| Text.SplitCount | question-1-data-cleaning/script.js:52 | `split` yields one more piece than there are separators |
| Text.DigitChar | question-4-integration/script.js:466 | A digit value maps to a decimal digit character |
| Text.DigitValue | question-4-integration/script.js:466 | Reading a digit character back gives the value that produced it |
| Text.NatToString | question-4-integration/script.js:466 | The decimal rendering is non-empty, all digits, and has no leading zero |
| Text.NatToStringRoundTrip | question-4-integration/script.js:466 | Reading the decimal rendering back gives the number |
| Text.PadStart2 | question-4-integration/script.js:466 | `padStart(2, '0')` pads to two characters with zeros on the left and keeps the original as the suffix |
| Text.PadStart2Value | question-4-integration/script.js:466 | Zero-padding keeps a digit string's value |
| CleaningRules.IsValidEmail | question-1-data-cleaning/script.js:184 | The pattern as a predicate: a non-empty local part of characters other than whitespace and `@`, then one `@`, then a domain of such characters holding a dot with a character on each side |
| CleaningRules.ValidEmailHasOneAt | question-1-data-cleaning/script.js:184 | An address matching the pattern has exactly one `@` and contains a dot |
| CleaningRules.NoDotInvalid | question-1-data-cleaning/script.js:184 | An address without a dot never matches the pattern |
| CleaningRules.DoubleAtInvalid | question-1-data-cleaning/script.js:184 | An address with `@@` never matches the pattern |
| CleaningRules.SelectEmailFix | question-1-data-cleaning/script.js:199-212 | The first applicable repair, in source order: the `" at "` word when there is no `@` and the word occurs; else `.com` when there is an `@` and no dot; else collapsing when there is more than one `@`; else none |
| CleaningRules.ApplyEmailFix | question-1-data-cleaning/script.js:200-210 | Applies the chosen repair: the first `" at "` becomes `@`, or `.com` is appended, or runs of `@` are collapsed, or the value is kept |
| CleaningRules.CollapseAts | question-1-data-cleaning/script.js:210 | `replace(/@@+/g, '@')` written out character by character: a `@` followed by another is dropped (its meaning is stated in CleaningRules.CollapseAtsSpec) |
| CleaningRules.RepairEmail | question-1-data-cleaning/script.js:193-214 | Empty and matching values are kept and not counted. Any other value is lower-cased and trimmed, then gets the first applicable repair, and is counted exactly when a repair branch was taken |
| CleaningRules.AtWordRoundTrip | question-1-data-cleaning/script.js:199-201 | The `" at "` repair leaves exactly one `@`, and replacing it back gives the lower-cased, trimmed input |
| CleaningRules.MissingDotMakesValid | question-1-data-cleaning/script.js:204-206 | A value of the form `local@domain` with no dot is turned into a valid address by appending `.com` |
| CleaningRules.CollapseAtsSpec | question-1-data-cleaning/script.js:210 | `replace(/@@+/g, '@')` leaves no `@@`, keeps every non-`@` character in order, and is idempotent |
| CleaningRules.CollapseOfNoDouble | question-1-data-cleaning/script.js:210 | Collapsing changes nothing when there is no `@@` |
| CleaningRules.RepairedEmailIsNormal | question-1-data-cleaning/script.js:196-214 | Every repaired value is trimmed and has no upper-case letter |
| CleaningRules.RepairEmailOfNormal | question-1-data-cleaning/script.js:194-214 | On an already trimmed, lower-case non-matching value, the repair is the selected fix applied directly |
| CleaningRules.CountedWithoutChange | question-1-data-cleaning/script.js:209-212 | A value with several `@` but no `@@` (and a dot) is counted as fixed although it comes back unchanged |
| CleaningRules.DigitsOnly | question-1-data-cleaning/script.js:248 | Stripping non-digits leaves only digits and never lengthens |
| CleaningRules.DigitsOnlyConcat | question-1-data-cleaning/script.js:248 | Stripping non-digits distributes over concatenation |
| CleaningRules.DigitsOnlyOfDigits | question-1-data-cleaning/script.js:248 | Stripping non-digits changes nothing in a digit string |
| CleaningRules.FormatLocal | question-1-data-cleaning/script.js:252 | The template `(AAA) BBB-CCCC` filled from ten digits, fourteen characters long |
| CleaningRules.FormatWithCountryCode | question-1-data-cleaning/script.js:260 | The template `+1 (AAA) BBB-CCCC` filled from the last ten of eleven digits, seventeen characters long |
| CleaningRules.FormatLocalDigits | question-1-data-cleaning/script.js:251-252 | The `(ddd) ddd-dddd` format keeps exactly the ten digits in order |
| CleaningRules.FormatWithCountryCodeDigits | question-1-data-cleaning/script.js:259-260 | The `+1 (ddd) ddd-dddd` format keeps exactly the eleven digits in order |
| CleaningRules.RepairPhone | question-1-data-cleaning/script.js:245-266 | A phone value is counted exactly when it changes, and its digits are always kept. It changes only to the 10-digit or the 11-digit (leading 1) format. An unchanged, non-blank value is already formatted or has another digit count |
| CleaningRules.RepairPhoneIdempotent | question-1-data-cleaning/script.js:246-265 | A repaired phone value is left alone and not counted by a second pass |
| CleaningRules.PhoneStageIdempotent | question-1-data-cleaning/script.js:236-268 | Repairing all phone columns of a row twice equals once, and the second pass counts nothing |
| CleaningRules.LowerOfNoUpper | question-1-data-cleaning/script.js:196 | Lower-casing a lower-case string is the identity |
| CleaningRules.TrimOfTrimmed | question-1-data-cleaning/script.js:196 | Trimming a trimmed string is the identity |
| DataCleaning.RecordFor | question-1-data-cleaning/script.js:62-65 | The row object of one line: each header in turn gets the value at its position or `''`, so a repeated header keeps its last position's value |
| DataCleaning.RecordsOf | question-1-data-cleaning/script.js:57-68 | The records of the lines after the header, in order, skipping lines that trim to empty |
| DataCleaning.ParseRecords | question-1-data-cleaning/script.js:51-68 | What `parseCSV` leaves in `rawData`: the text split on line breaks, with the trimmed first-line names as headers for the remaining lines |
| DataCleaning.RecordForKeys | question-1-data-cleaning/script.js:63-65 | A parsed row has exactly the header names as keys |
| DataCleaning.RecordForValues | question-1-data-cleaning/script.js:63-65 | The value under the last header of a name is that column's field, or `''` when the line is short |
| DataCleaning.RecordsOfShape | question-1-data-cleaning/script.js:57-68 | There are no more parsed rows than data lines, and every row has exactly the header keys |
| DataCleaning.ParseShape | question-1-data-cleaning/script.js:51-68 | There are at most as many records as line breaks in the text, and every record is keyed by the trimmed first-line headers |
| DataCleaning.CommaLineIsAllEmpty | question-1-data-cleaning/script.js:58-65 | A line of only commas and spaces (which the blank-line check does not skip) parses to a row whose every value is empty |
| DataCleaning.AllPositions | question-1-data-cleaning/script.js:71 | The initial cleaned view is every raw row, in order |
| DataCleaning.HasValue | question-1-data-cleaning/script.js:163 | A row has some value that is non-empty after trimming |
| DataCleaning.KeepNonEmpty | question-1-data-cleaning/script.js:161-164 | Filtering keeps an increasing subsequence of the view's positions |
| DataCleaning.KeepNonEmptyMembers | question-1-data-cleaning/script.js:161-164 | A row stays in the view exactly when it was in the view and has some non-blank value |
| DataCleaning.KeepNonEmptyData | question-1-data-cleaning/script.js:161-164 | The rows seen through the filtered view are the filter of the rows seen through the old view |
| DataCleaning.KeepNonEmptyIdempotent | question-1-data-cleaning/script.js:161-164 | Removing empty rows twice equals once |
| DataCleaning.RepairAt | question-1-data-cleaning/script.js:186-217 | Repairing through the view keeps the number of raw rows |
| DataCleaning.RepairAtStep | question-1-data-cleaning/script.js:186-217 | Each visited row is repaired from its original value, and the fix count grows by that row's count |
| DataCleaning.GatherRepairAt | question-1-data-cleaning/script.js:186-217 | Seen through the view, every row after the stage is the rule applied to the same row before it |
| DataCleaning.PhoneStageTwice | question-1-data-cleaning/script.js:236-271 | Running phone standardisation twice equals once, and the second run reports zero fixes |
| DataCleaning.NoPhoneFixesLeft | question-1-data-cleaning/script.js:236-271 | After phone standardisation, no row of any sub-view needs another phone fix |
| DataCleaning.RepairFields | question-1-data-cleaning/script.js:186-216 | One row's targeted columns are repaired, and its fix count is the number of counted repairs |
| DataCleaning.RepairColumns | question-1-data-cleaning/script.js:192-216 | The loop over target columns rewrites exactly those columns and counts the counted repairs |
| DataCleaning.RepairColumnsOfRule | question-1-data-cleaning/script.js:188-190 | Filtering the keys by column name and repairing them gives the rule's row repair |
| DataCleaning.CountColumnsOfRule | question-1-data-cleaning/script.js:238-242 | The per-column count equals the rule's row count |
| DataCleaning.BuildRow | question-1-data-cleaning/script.js:61-65 | Building a row with a loop over headers gives the row record |
| DataCleaning.ParseLines | question-1-data-cleaning/script.js:57-68 | The line loop yields the parsed records, skipping blank lines |
| DataCleaning.Cleaner.constructor | question-1-data-cleaning/script.js:2-9 | Empty raw and cleaned data, all statistics zero |
| DataCleaning.Cleaner.ParseCSV | question-1-data-cleaning/script.js:51-71 | The raw rows are the parsed records, the cleaned view is all of them, and `originalRows` is their number |
| DataCleaning.Cleaner.RemoveEmptyRows | question-1-data-cleaning/script.js:153-169 | Without data nothing changes. Otherwise the view keeps only non-blank rows and `cleanedRows` is set |
| DataCleaning.Cleaner.RepairCleaned | question-1-data-cleaning/script.js:186-217 | The shared rows become the rule applied through the view, and the returned count is the total fix count |
| DataCleaning.Cleaner.ValidateEmails | question-1-data-cleaning/script.js:177-220 | Without data nothing changes. Otherwise the rows are repaired through the view, `emailsFixed` is assigned the total and `cleanedRows` is set |
| DataCleaning.Cleaner.StandardizePhones | question-1-data-cleaning/script.js:228-271 | The same as e-mail validation, for phone columns and `phonesFixed` |
| DataCleaning.Cleaner.CleanAll | question-1-data-cleaning/script.js:279-293 | Without data nothing changes. Otherwise the view is reset and filtered, then e-mails and phones are repaired in turn, and the statistics report each stage |
| Dashboard.TotalPages | question-2-dashboard/script.js:284 | The page count is the ceiling of n/5 |
| Dashboard.PageSlice | question-2-dashboard/script.js:260-262 | A page is the up-to-five transactions starting at `(page-1)*5`, in order |
| Dashboard.RowOnItsPage | question-2-dashboard/script.js:260-262 | Every transaction appears on exactly the page its index determines, and that page is in range |
| Dashboard.Positions | question-2-dashboard/script.js:463 | Filter positions are increasing and in range |
| Dashboard.PositionsMembers | question-2-dashboard/script.js:463 | A position is kept exactly when its transaction passes the predicate |
| Dashboard.PositionsAll | question-2-dashboard/script.js:480 | When every transaction passes, all positions are kept |
| Dashboard.Select | question-2-dashboard/script.js:463 | Filtering never lengthens the list |
| Dashboard.SelectSpec | question-2-dashboard/script.js:463-467 | The filter result is the passing transactions, in their original order |
| Dashboard.SelectAll | question-2-dashboard/script.js:463-467 | A predicate every transaction passes keeps the list unchanged |
| Dashboard.MatchesSearch | question-2-dashboard/script.js:464-466 | The lower-cased customer, id or category contains the lower-cased term |
| Dashboard.SearchResults | question-2-dashboard/script.js:463-467 | The transactions matching the search, in their original order |
| Dashboard.EmptySearchKeepsAll | question-2-dashboard/script.js:463-467 | An empty search term matches every transaction |
| Dashboard.StatusResults | question-2-dashboard/script.js:479-480 | Status `all` returns the transactions unchanged |
| Dashboard.StatusResultsExact | question-2-dashboard/script.js:482-484 | Any other status keeps exactly the transactions with that status |
| Dashboard.Insert | question-2-dashboard/script.js:498-502 | Insertion adds exactly the new element |
| Dashboard.InsertSorted | question-2-dashboard/script.js:498-502 | Insertion into a date-sorted list keeps it sorted |
| Dashboard.SortByDate | question-2-dashboard/script.js:498-502 | The sort is a permutation, ordered by date in the requested direction |
| Dashboard.Page.constructor | question-2-dashboard/script.js:4-5 | The table starts on page 1 showing the first page, with previous disabled |
| Dashboard.Page.Drawn | question-2-dashboard/script.js:256-291 | The table shows the current page's slice, the page count is the ceiling, previous is disabled exactly on page 1 and next exactly on the last page |
| Dashboard.Page.Populate | question-2-dashboard/script.js:256-291 | The table shows the current page. Previous is disabled exactly on page 1, next exactly on the last page |
| Dashboard.Page.PrevPage | question-2-dashboard/script.js:366-372 | Above page 1 the page decreases and the table, page count and both buttons are redrawn; on page 1 nothing changes at all |
| Dashboard.Page.NextPage | question-2-dashboard/script.js:375-382 | Below the last page the page increases and the table, page count and both buttons are redrawn; otherwise nothing changes at all |
| Dashboard.Page.FilterTransactions | question-2-dashboard/script.js:460-470 | Shows the current page of the search results, with their page count; the page number is kept |
| Dashboard.Page.FilterByStatus | question-2-dashboard/script.js:475-487 | Shows the current page of the status results, with their page count |
| Dashboard.Page.SortTransactionsByDate | question-2-dashboard/script.js:492-505 | The direction is newest-first exactly when the first date is before the last. The result is a sorted permutation, redrawn from page 1 with the page count and both buttons. With no transactions nothing changes |
| Dashboard.Page.AddNewActivity | question-2-dashboard/script.js:671-680 | The message is put first and the older entries follow, cut to ten entries in all |
| DataUI.Row.constructor | question-3-data-ui/script.js:139-143 | A row holds the cells it was built from |
| DataUI.CellAt | question-3-data-ui/script.js:275 | A missing cell reads as `''` |
| DataUI.SearchHit | question-3-data-ui/script.js:241-243 | Some non-empty cell of the row, lower-cased, contains the term |
| DataUI.ColumnHit | question-3-data-ui/script.js:275-276 | The cell at the column (`''` when missing), lower-cased, contains the value |
| DataUI.Kept | question-3-data-ui/script.js:239-244 | The kept positions are increasing, in range, and start with the header row |
| DataUI.KeptMembers | question-3-data-ui/script.js:239-244 | A row is kept exactly when it is the header or passes the test |
| DataUI.Pick | question-3-data-ui/script.js:236 | The view holds the chosen rows themselves (shared, not copied), in order |
| DataUI.Table | question-3-data-ui/script.js:139-143 | A sheet's table is its rows' cells, in order |
| DataUI.SlotTable | question-3-data-ui/script.js:183 | A view's table has the rows' cells, with holes kept as holes |
| DataUI.SetCell | question-3-data-ui/script.js:225 | Writing a cell sets that cell and pads a short row with `''`; other cells keep their value |
| DataUI.Place | question-3-data-ui/script.js:222-224 | Writing a new row past the end of the view leaves holes before it and keeps the other slots |
| DataUI.ChartPoints | question-3-data-ui/script.js:382-389 | There is at most one point per data row below the limit, and both parts of each point are non-empty |
| DataUI.ChartPointsFromRows | question-3-data-ui/script.js:382-389 | Every point comes from a data row, and every data row with non-empty x and y cells gives a point |
| DataUI.SheetView.constructor | question-3-data-ui/script.js:3-7 | No sheet; empty data and view |
| DataUI.SheetView.LoadSheet | question-3-data-ui/script.js:134-150 | The sheet's rows are loaded as fresh distinct rows. An empty sheet reports failure and leaves the view alone; otherwise the view is all rows |
| DataUI.SheetView.FilterData | question-3-data-ui/script.js:234-245 | A blank term shows all rows. Otherwise the view is the header plus the rows with a non-empty cell containing the lower-cased term |
| DataUI.SheetView.ShowSearchHits | question-3-data-ui/script.js:238-244 | The non-blank search: the view is the header plus, in order, the rows passing the search test for the lower-cased term |
| DataUI.SheetView.ApplyColumnFilter | question-3-data-ui/script.js:266-278 | With no column or value, all rows are shown. Otherwise the view is the header plus the rows whose cell in that column contains the value |
| DataUI.SheetView.SaveCell | question-3-data-ui/script.js:218-225 | An existing view row is edited in place, which is also visible through the loaded data. A missing row is created at that index, with holes before it |
| DataUI.SheetView.Info | question-3-data-ui/script.js:485-488 | The row count is the view length minus the header, never negative, and the column count is the header's width. Undefined when the header slot is a hole |
| DataUI.SheetView.GenerateChart | question-3-data-ui/script.js:358-394 | Missing axes and fewer than two rows are reported. Otherwise the points of the first twenty data rows are plotted, or no-data is reported when there are none |
| DataUI.AllRows | question-3-data-ui/script.js:150 | The reset view lists every row, in order |
| DataUI.Firsts | question-3-data-ui/script.js:385 | The labels are the points' first parts, in order |
| DataUI.Seconds | question-3-data-ui/script.js:386 | The values are the points' second parts, in order |
| Integration.Source.constructor | question-4-integration/script.js:93-100 | A new source is connecting, with no update, zero response time, no data and no error |
| Integration.Source.Succeed | question-4-integration/script.js:147-151 | Success stores the data, the update time and the response time, marks the source connected and clears the error |
| Integration.Source.Fail | question-4-integration/script.js:158-160 | Failure marks the source as in error, with the message and the response time; the other fields are kept |
| Integration.IdsWhere | question-4-integration/script.js:421-422 | The selected ids are exactly the sources satisfying the test |
| Integration.ActiveApis | question-4-integration/script.js:421-422 | The number of connected sources is at most the number of sources |
| Integration.DataPoints | question-4-integration/script.js:424-425 | The number of sources holding truthy data is at most the number of sources |
| Integration.CountAfterUpdate | question-4-integration/script.js:421-425 | Changing one source moves each count by at most one, exactly as its old and new states dictate |
| Integration.ConnectionOf | question-4-integration/script.js:439-454 | All online exactly when every source is connected (including none at all). "k/n Connected" with 0 < k < n otherwise when any is connected. "Connecting..." exactly when sources exist and none is connected |
| Integration.ConnectionText | question-4-integration/script.js:445-453 | The banner text: `All Systems Online`, `k/n Connected`, or `Connecting...` |
| Integration.AgoOf | question-4-integration/script.js:519-531 | "Just now" exactly below one minute (including negative differences). Otherwise whole minutes below an hour, then whole hours, each bracketing the difference |
| Integration.AgoText | question-4-integration/script.js:525-530 | The label text: `Nh ago`, `Nm ago`, or `Just now` |
| Integration.AgoTextReadsBack | question-4-integration/script.js:526-528 | The label's number reads back as the minutes or hours |
| Integration.UptimeClock | question-4-integration/script.js:460-463 | Minutes and seconds are below 60, and the clock is the uptime rounded down to the second |
| Integration.UptimeSplit | question-4-integration/script.js:461-463 | Hours, minutes and the remainder reassemble the uptime |
| Integration.ClockText | question-4-integration/script.js:465-466 | Hours, minutes and seconds in decimal, each padded to two digits, joined by colons |
| Integration.ClockTextFields | question-4-integration/script.js:465-466 | The `hh:mm:ss` text has two-digit minute and second fields and a digit hour field, and each reads back as its value |
| Integration.Hub.constructor | question-4-integration/script.js:3-18 | No sources, no timers, an empty chart |
| Integration.Hub.AddDataSource | question-4-integration/script.js:92-104 | The id maps to a fresh connecting source (replacing any other), and a timer is started when the interval is non-zero |
| Integration.Hub.StartAutoRefresh | question-4-integration/script.js:107-116 | The old timer of the id is cleared and a new handle is recorded; handles stay distinct and match the running set |
| Integration.Hub.BeginRefresh | question-4-integration/script.js:119-124 | An unknown id does nothing. A known source is marked loading |
| Integration.Hub.FinishRefresh | question-4-integration/script.js:127-162 | On success the source is updated and the chart gets the point. On failure only the error fields change. Every other source's state is kept |
| Integration.Hub.RefreshSucceeded | question-4-integration/script.js:147-154 | Success updates the source and pushes one chart point |
| Integration.Hub.RefreshFailed | question-4-integration/script.js:157-160 | Failure updates only the source's error fields |
| Integration.Hub.SnapshotAfter | question-4-integration/script.js:164-166 | After one source changes, the hub's view of all sources differs only at that source |
| Integration.ChartData.constructor | question-4-integration/script.js:7-17 | An empty chart window |
| Integration.ChartData.Update | question-4-integration/script.js:338-345 | The point is appended to the history, and the window slides to keep the last twenty points |
| Integration.HandleUpdate | question-4-integration/script.js:108-116 | Replacing a source's handle by a fresh one keeps the handles distinct and the running set exact |
| Integration.LastPoints | question-4-integration/script.js:338-342 | The window holds min(n, 20) points |
| Integration.LastPointsSuffix | question-4-integration/script.js:338-345 | The window is the last points pushed, in order |
| Integration.Slide | question-4-integration/script.js:339-345 | The new point ends the window, which grows until it reaches twenty points |
| Integration.LastPointsPush | question-4-integration/script.js:338-345 | Sliding the window by one push equals taking the last twenty of the extended history |

## Left out

- The DOM, Chart.js, message banners, table rendering and event wiring are not modelled. Handlers are methods called with their inputs: a search term, a column index, axis choices, a cell value.
- File reading (`FileReader`), `fetch`, `response.json()`/`text()` and the SheetJS workbook conversion are not modelled. Their results are parameters: the CSV text, the sheet as rows of strings, and the fetch outcome with its payload or error message.
- Clocks, `setInterval`/`clearInterval` and `Math.random` are not modelled. Times and elapsed times are parameters. Timers are modelled only as handle bookkeeping: which handle belongs to which source, and which are running. The random activity message and the random chart value are parameters.
- Floating point is not modelled: the average response time, `parseFloat` of chart values, transaction amounts and all chart values are integers or plain strings here.
- `Text.Lower` lower-cases ASCII letters only; full Unicode case mapping is not modelled.
- Dates are integer keys. `isAscending` compares the date strings in the source, which is the same order for ISO dates only.
- Dashboard.SortByDate: sort stability (the order of equal dates) is not proved. The sort is modelled on the transaction sequence as a whole, not as an in-place array sort.
- Dashboard.Page.SortTransactionsByDate: on an empty list the source throws reading `[0].date`; the model returns no direction and changes nothing.
- The dashboard handlers' early return before the data is loaded (the `!dashboardData` guards of question-2-dashboard/script.js) is not modelled: a `Page` exists only once transactions are loaded. The viewer's handlers need no such case, since before a sheet is loaded they work on the empty state of `DataUI.SheetView.constructor`.
- `sortByColumn` (float parsing and locale collation), `exportData` in both files, the sheet tabs, the column-filter and chart-axis selectors, the dashboard's summary cards and charts, and all of `question-5-dashbord` (its logic runs as SQL inside sql.js) are not part of this model.
- `refreshAllSources`, `handleAddApi`, `updateChartSource` and the modal handlers are not modelled; they only call the modelled operations or touch the DOM.
- `initializeDefaultSources`, `getMockData`, `updateWidgetData` and the source grid of the hub are not modelled. An exception thrown by the widget or chart update after a successful fetch would flip the source to error in the source; the model's success path does not throw.
- Integration.UptimeClock takes a non-negative uptime; a clock set back before the start time is not modelled.
- Integration.DataPoints: the displayed data-point count is multiplied by 156 in the source; the model keeps the unscaled count.
- Records are maps, so JavaScript object key order and keys such as `__proto__` are not modelled. Of duplicate header names, the last one wins, as in the source.
- Integration.LastPoints: only the window length is stated; its content is stated in Integration.LastPointsSuffix.
