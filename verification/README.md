# NDR result scraper — a Dafny model of its result pipeline

`ndr_scraper.py` collects Dutch horse-racing results from ndr.nl for a range
of months. This project models the pure part of that script, from "HTML
already reduced to strings" to "lines appended to the CSV files":

- **Table parsing** (`html_to_df`). A race's first `<table>` becomes a frame.
  The header is the stripped `th` texts of the first row. Each later row gives
  one record of `td` texts, stripped and with runs of ASCII spaces collapsed.
  Modules `Text` and `HtmlTable`.
- **Race metadata** (`add_raceinfos_to_results`). Name, time, title, the
  description spans (by position, and only when there are one to three of
  them) and date-track spans 0 and 1 are written into every row. Module
  `RaceInfo`.
- **Schema normalisation** (`add_missing_columns` and `result_df[result_cols]`).
  Every race is forced onto the 21 `all_cols` columns. Module `Schema`.
- **Event results** (`get_event_results`). This covers the results URL, the
  race blocks in document order, and the concatenation, including its one
  caught error: a page with no race blocks leaves nothing to concatenate.
  Module `Events`.
- **Run glue**. This covers the inclusive month list and its `split('-')`,
  the three output file names, and the results file: one header, then each
  event's rows in event order. Modules `Months`, `Split`, `Digits` and
  `Results`.

A pandas frame is modelled positionally as `Frame(columns, rows)`. Column names
are distinct and every row has one cell per column (`Frames.WellFormed`). The
fetched page, the race blocks' texts and the list of event ids are inputs.

Failures the script does not catch become `Failure(...)` values of the
`Result` type (`Wrappers.Fault`):

- a race block without a `<table>`: `find('table')` gives `None`, and line 166
  calls `find_all` on it;
- a table whose widest data row is not as wide as its header:
  `pd.DataFrame` at line 183 raises `ValueError`;
- fewer than two date-track spans: the indexing at lines 232-233 raises
  `IndexError`;
- a failed request: `requests.get` at line 125 raises, and no caller catches it.

Each of these ends the whole run. The rows already appended stay in the
results file (`Results.FaultStopsRun`).

Two further behaviours of the script shape the model:

- A page without race blocks leaves `results_list` empty. `pd.concat` at line
  137 then raises `ValueError`. The handler at lines 138-144 writes one error
  line and the event contributes an empty frame.
- Only runs of ASCII spaces are collapsed (the pattern `' +'` at line 180), and
  only in data cells. Tabs and newlines inside a cell are kept. Header cells
  are only stripped (line 173).

## Model

| member | source | states |
|---|---|---|
| Text.Strip | ndr_scraper.py:173 | `str.strip()`: the result is a slice of the input with only whitespace (Python's `isspace` set, including U+00A0) around it, and it neither starts nor ends with whitespace |
| Text.StripUnique | ndr_scraper.py:173 | the strip result is the only trimmed slice with only whitespace around it, so the characterisation above determines it |
| Text.StripTrimmed | ndr_scraper.py:173 | stripping an already trimmed text changes nothing |
| Text.CollapseSpaces | ndr_scraper.py:180 | `re.sub(' +', ' ', s)`; no contract of its own: its meaning is fixed by `CollapseRun` (every run becomes one space, the text around it collapsed on its own) and `CollapseIdentity` (a text without double spaces is left alone) |
| Text.CollapseEnds | ndr_scraper.py:180 | `re.sub(' +', ' ', s)` never lengthens the text and keeps its first and last character |
| Text.CollapseNoDoubleSpace | ndr_scraper.py:180 | after the collapse no two consecutive ASCII spaces remain |
| Text.CollapseKeepsNonSpaces | ndr_scraper.py:180 | the collapse removes only ASCII spaces: every other character (tabs and newlines included) survives in order |
| Text.CollapseIdentity | ndr_scraper.py:180 | the collapse leaves a text unchanged if and only if the text has no double space |
| Text.CollapseRun | ndr_scraper.py:180 | a run of n >= 1 spaces between a piece not ending in a space and a piece not starting with one becomes exactly one space, and each piece is collapsed on its own, whatever runs it holds |
| Text.CollapseTwoRunsExample | ndr_scraper.py:180 | every run is collapsed: "a  b  c" is read as "a b c" |
| Text.HeaderText | ndr_scraper.py:171-173 | a header cell is stripped only: trimmed, and a slice of the raw text with whitespace around it |
| Text.HeaderTextKeepsInnerSpaces | ndr_scraper.py:173 | the header " na  1e " is read as "na  1e", keeping the inner double space |
| Text.NormalizeCell | ndr_scraper.py:179-180 | a data cell comes out trimmed, without double spaces, and with the same non-space characters as the stripped text; a stripped text without double spaces is kept as it is |
| Text.NormalizeCellRun | ndr_scraper.py:179-180 | two trimmed words with a run of spaces between them are read with exactly one space there, each word collapsed on its own |
| Text.NormalizeCellIdempotent | ndr_scraper.py:179-180 | normalising a normalised cell changes nothing |
| Text.NormalizeCellExample | ndr_scraper.py:179-180 | the cell "foo   bar\n" is read as "foo bar" |
| HtmlTable.Header | ndr_scraper.py:170-173 | one column name per `th` of the first row, in order, each the stripped text |
| HtmlTable.DataRow | ndr_scraper.py:176-181 | one value per `td` of the row, in order, each the normalised text |
| HtmlTable.HtmlToFrame | ndr_scraper.py:164-186 | no table gives MissingTable; a table without rows gives the empty frame; a table whose widest data row is not as wide as its header gives ColumnCountMismatch (pandas' `ValueError`); otherwise it succeeds exactly for supported shapes, with the header as columns, one record per later row in document order, and each cell the normalised `td` text |
| RaceInfo.DescriptionCount | ndr_scraper.py:220-228 | the number of description columns filled is the number of spans when there are one to three, and zero exactly when there are none or more than three |
| RaceInfo.DescriptionMapping | ndr_scraper.py:217-228 | `description{k+1}` gets span k exactly when there are 1 to 3 spans and k is below their number; otherwise that column gets nothing from the block |
| RaceInfo.AttachRaceInfo | ndr_scraper.py:189-234 | fails exactly when there are fewer than two date-track spans; otherwise the row count is unchanged, the metadata columns are added, every row holds each metadata value (overwriting a table column of the same name), and all other cells are untouched |
| RaceInfo.MetaFieldIsLastAssigned | ndr_scraper.py:209-233 | the sequence of column assignments in the source leaves each column holding exactly the value of the positional reference `MetaField` |
| RaceInfo.DescriptionLastAssigned | ndr_scraper.py:220-228 | the if/elif chain over the span count assigns `description1..k` from spans `0..k-1` and nothing else |
| Frames.SetColumn | ndr_scraper.py:259 | `df[name] = v` puts `v` in every row under `name`, appends the column if it is new and keeps its place otherwise, leaves every other cell alone and keeps the row count |
| Frames.SetColumns | ndr_scraper.py:209-233 | a sequence of column assignments leaves each assigned column holding the value written last, and every other column as it was |
| Frames.Project | ndr_scraper.py:134 | `df[cols]`: exactly the named columns in the given order, each cell the frame's cell under that name |
| Frames.ConcatFrames | ndr_scraper.py:137 | `pd.concat` of frames sharing a schema keeps the schema, has exactly as many rows as the frames together, and each frame's rows sit unbroken at their offset |
| Frames.FlattenBlock | ndr_scraper.py:137 | in a concatenation, block k appears unchanged right after blocks 0..k-1 |
| Schema.AllColsShape | ndr_scraper.py:311-316 | `all_cols` has 21 distinct names |
| Schema.Missing | ndr_scraper.py:260-262 | a name is missing exactly when the schema has it and the frame does not |
| Schema.AddMissingColumns | ndr_scraper.py:258-264 | `event` holds the event id on every row, every schema column the frame lacks holds `''`, the frame's other cells are unchanged, and the row count is kept |
| Schema.Normalize | ndr_scraper.py:132-134 | the columns are exactly the schema in schema order and the row count is unchanged; each cell is the event id (for `event`), the race's own value where the race has that column, and `''` otherwise; columns outside the schema are gone |
| Schema.NormalizeAllCols | ndr_scraper.py:132-134 | with `all_cols`, every row has 21 cells, the first is the event id, and `COTE` is `''` for a race without that column |
| Events.EventUrl | ndr_scraper.py:120-124 | the URL is the fixed prefix, then the event id, then the fixed suffix |
| Events.EventUrlInjective | ndr_scraper.py:120-124 | two events share a URL if and only if they have the same id |
| Events.ProcessRace | ndr_scraper.py:129-134 | one block fails with MissingTable, ColumnCountMismatch, UnsupportedShape or MissingDateTrack in exactly those cases; otherwise it yields the `all_cols`-shaped frame with one row per table record |
| Events.ProcessRaceCells | ndr_scraper.py:129-134 | each cell of a processed race is what `RaceCell` reads directly off the block: event id, block metadata, the table's own cell, or `''` |
| Events.RaceCellsAgree | ndr_scraper.py:130-134 | the pipeline's cells agree with the block-level reference `RaceCell` |
| Events.ProcessRaces | ndr_scraper.py:129-135 | the race loop succeeds exactly when every block does, gives block k's frame at position k, and otherwise reports the fault of the first failing block |
| Wrappers.Collect | ndr_scraper.py:129-135 | a loop that stops at the first exception yields every value when nothing fails, and otherwise the first failure, with all steps before it succeeding |
| Events.EventResult | ndr_scraper.py:101-145 | a failed request ends the run; a page with no race blocks gives the empty frame and exactly one error record (message, event id, URL); a page with race blocks that all go through gives the schema's columns and no error record |
| Events.EventFailsOnFirstBadRace | ndr_scraper.py:129-137 | a page with race blocks yields a result exactly when every block goes through; otherwise it yields the fault of the first block that does not |
| Events.EventRowsInDocumentOrder | ndr_scraper.py:127-137 | race k's normalised rows sit unbroken in the event's rows right after those of races 0..k-1 |
| Events.EventFrameIsConcat | ndr_scraper.py:136-137 | a page with race blocks yields the concatenation of its race frames |
| Events.EventRowCount | ndr_scraper.py:129-144 | an event that goes through has exactly one row per record of its race tables (`<tr>` rows after the header row), and none for a page without race blocks |
| Results.ErrorLine | ndr_scraper.py:143 | an error line has three fields: the message, then the event id, then the URL |
| Results.Completed | ndr_scraper.py:322-323 | the events processed are a prefix of the list: all of them, or all of them up to the first one that faults |
| Results.RunFault | ndr_scraper.py:322-323 | the run ends with a fault exactly when some event faults |
| Results.WriteOutcomes | ndr_scraper.py:318-326 | the loop writes the header, then the rows of every completed event in order, then stops at the first fault; the error lines are those of the completed events |
| Results.WriteResults | ndr_scraper.py:318-326 | writing the run over the event list gives the files and fault of `Run` |
| Results.EventRowsContiguous | ndr_scraper.py:318-326 | the header is the first line, and each completed event's rows are contiguous at their offset after it |
| Results.ResultsLength | ndr_scraper.py:318-326 | the results file holds one header line plus the total row count of the completed events |
| Results.DuplicateEventWrittenTwice | ndr_scraper.py:322-326 | there is no deduplication: an event listed twice has its rows written twice |
| Results.FaultStopsRun | ndr_scraper.py:322-326 | a fault in event k (with none before it) ends the run with that fault, and the results keep only the header and the rows of events 0..k-1 |
| Results.ErrorLinesOfEvent | ndr_scraper.py:136-144 | an event with no race blocks adds no rows and exactly one error line naming it and its URL; any other completed event adds no error line |
| Months.FromIndex | ndr_scraper.py:283-288 | every month count corresponds to a valid month with that index |
| Months.IndexInjective | ndr_scraper.py:283-288 | two valid months are equal if and only if their indices are |
| Months.MonthRange | ndr_scraper.py:283-288 | the list runs from the first month to the last one inclusive, one month after another, covers every month in between, and is empty when the last month comes before the first |
| Months.MonthText | ndr_scraper.py:288 | `strftime('%Y-%#m')`: the year text, a dash, the unpadded month text; no contract of its own: `MonthListSplits` states that `split('-')` gives back the two texts and that they read back to the month |
| Months.MonthList | ndr_scraper.py:286-288 | one text per month of the range |
| Months.MonthListSplits | ndr_scraper.py:60 | `split('-')` of entry k gives exactly the year text and the unpadded month text, which read back to month k of the range |
| Split.SplitOn | ndr_scraper.py:60 | `str.split(sep)`: at least one piece, no piece contains the separator, and the pieces joined with it give the input |
| Split.SplitJoin | ndr_scraper.py:60 | splitting a join of separator-free pieces gives the pieces back |
| Split.RemoveChar | ndr_scraper.py:293 | `replace('-', '')` leaves no dash behind and changes nothing in a text without one |
| Split.RemoveCharIsSplitConcat | ndr_scraper.py:293 | removing a character equals splitting on it and concatenating the pieces |
| Digits.NatText | ndr_scraper.py:288 | the decimal text of a number is non-empty, all digits, and has no leading zero unless it is "0" |
| Digits.ParseNatText | ndr_scraper.py:288 | the decimal text of a number reads back to that number |
| Digits.NatTextInjective | ndr_scraper.py:288 | different numbers have different decimal texts |
| Digits.PadNat | ndr_scraper.py:275-282 | a zero-padded field is all digits, has the requested width when the number fits, and reads back to the number |
| Months.OutputName | ndr_scraper.py:292-303 | a file name starts with its prefix and ends with `.csv` |
| Months.OutputNameOfMonths | ndr_scraper.py:292-303 | for months typed as asked ("2013-02"), the name is the prefix, six digits `YYYYMM`, `to`, six digits, `.csv` |
| Months.OutputNameInjective | ndr_scraper.py:292-303 | for months typed in the asked form "YYYY-MM" with a four-digit year, two runs write to the same file if and only if they cover the same pair of months |
| Months.UnpaddedMonthNamesDiffer | ndr_scraper.py:292-303 | the name follows the typed text: "2013-1" and "2013-01" name different files although both mean January 2013 |
| Months.OutputNamesDiffer | ndr_scraper.py:292-303 | the events, results and errors files of one run are three different files |

## Left out

- Browser crawling (`get_events`, Selenium, dropdowns, `time.sleep`) is not modelled: it is UI automation. Only its `split('-')` of the month list is modelled.
- The HTTP request is not modelled: it is network I/O. The page is an input, either a request error or the page's race blocks.
- BeautifulSoup is not modelled: it is a foreign library. The tag texts and span lists it would extract are inputs.
- A missing `div.ndr-koers-naam`, `div.ndr-koers-tijd` or `div.ndr-koers-titel` (line 215 then calls `find('h2')` on `None`), or a missing `h2`, would also crash the script. The model takes their texts as given.
- HtmlTable.HtmlToFrame: two kinds of table that pandas accepts are not modelled, and both give the fault `UnsupportedShape`. The first has short rows next to a row as wide as the header; pandas pads the short rows with NaN. The second has repeated header names; pandas keeps them. Every other ragged table is the script's own uncaught `ValueError`, modelled as `ColumnCountMismatch`.
- CSV quoting and escaping by `csv.writer` and `to_csv`, and file opening and flushing, are not modelled: they are library I/O. A file is a sequence of logical rows. An empty event frame is taken to add no line.
- File append mode across runs is not modelled. Running twice with the same months appends a second header to existing files.
- `Months.MonthRange` models only the month-index arithmetic of `pd.date_range`, `strptime` and `relativedelta`. The pandas timestamp range (years 1677 to 2262) is not modelled.
- Months.MonthList: formats the month as `%#m` does on Windows (no leading zero). The directive is platform specific and is not modelled elsewhere. The year is written without padding.
- Months.OutputNameInjective: covers only months typed in the asked form "YYYY-MM" with a four-digit year. `strptime` (line 284) also accepts "2013-1", so typing "2013-1" in one run and "2013-01" in another covers the same months but names different files (`events_20131...` and `events_201301...`), as `Months.UnpaddedMonthNamesDiffer` shows.
- Console input and `print` are not modelled. The two month texts are parameters (`Months.InputText` for the format the prompt asks for).
- The error writer reads the globals `errors_csv` and `event` instead of its parameters. The model uses the event id passed in, which is the same value in the main loop.
- The events CSV written by the crawler and read back (lines 304-309) is not modelled: it is I/O. The event list is an input.
