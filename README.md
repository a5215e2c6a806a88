# Closure reliability analysis — a Dafny model of the ingestion and data handlers

The system records storm-surge barriers and their closure events, and it
estimates how often a barrier fails to close. One barrier, HIJK, keeps its
closure log in a spreadsheet. This project models three parts of the system
in Dafny and proves properties about them.

- **The HIJK sheet ingestion** (`ingestCSVhijk`):
  - It cleans the START/END, DATE and WATERLEVEL columns of the spreadsheet.
  - It maps the Dutch closure labels to STORM, TEST and OPS.
  - It normalises the sheet's time tokens ("24:00", "8:oo", "14.:30", …) into
    "HH:MM:SS".
  - It scans the sheet forward. Each numbered row gives one closure record,
    whose end date and end time come from the first row whose END is neither
    "--" nor empty.
- **The handler of the top-level application**:
  - `upsert_barrier` and `get_all_abbreviations`.
  - `insert_closure_events`: a batch insert-or-update keyed on
    (StartDate, StartTime, barrier), with a commit or rollback for each record
    and the list of skipped records.
  - `insert_single_closure_event`: the 404/409/201 single insert.
  - The two estimators: `calculate_rule_of_three` and
    `calculate_beta_distribution`.
- **The handler of the `reliability/` application**:
  - `upsert_barrier` and `get_all_abbreviations`.
  - `upsert_closure_data_list`: a batch keyed on (StartDate, EndDate, barrier).
    It passes over 'NaT' dates, prints the errors it skips, and makes one
    commit at the end.
  - `insert_single_closure`.

The database is a `Store.Database` object. It holds two tables, each a
sequence of rows in store order. A barrier lookup by abbreviation is a
search of that sequence:
- `.first()` takes the first match.
- `.scalar()` raises when there are several matches.

What the database's schema refuses at commit is a property of the rows, a
constant of the `Database`: `acceptsBarrier` and `acceptsClosure`. A
refused commit is the `Rejected` error.

The project has these modules:

| module | file | content |
|---|---|---|
| `Common` | common.dfy | `Option`, `Result` |
| `SheetText` | sheet_text.dfy | spreadsheet cells, `str.replace` on characters and on "oo" |
| `HijkTime` | hijk_time.dfy | `strptime('%H:%M')`, `str(time)`, `handle_time_inputs` |
| `HijkIngest` | hijk_ingest.dfy | column clean-up, the forward scan, the `IngestHijk` class |
| `Store` | store.dfy | rows, barrier lookups, `upsert_barrier`, `get_all_abbreviations` |
| `Reconcile` | reconcile.dfy | the look-up-then-update-or-insert step both closure handlers share |
| `DataHandler` | data_handler.dfy | the top-level closure handlers |
| `ReliabilityHandler` | reliability_handler.dfy | the `reliability/` closure handlers |
| `Estimators` | estimators.dfy | rule of N and the beta-binomial posterior |

Paths in the table below are relative to the repository root.

## Model

| member | source | states |
|---|---|---|
| SheetText.Show | ingest_data/ingest_hijk_data.py:25-31 | `str(cell)` is the text itself, and an empty (NaN) cell prints with neither ':' nor '.' |
| SheetText.MapText | ingest_data/ingest_hijk_data.py:15-18 | a column rewrite changes text cells only and leaves empty cells empty |
| SheetText.RemoveChar | ingest_data/ingest_hijk_data.py:15 | `replace(c, "")` leaves no `c` and exactly the other characters, the same number of times each |
| SheetText.RemoveCharAppend | ingest_data/ingest_hijk_data.py:32 | deleting a character distributes over concatenation |
| SheetText.RemoveInsertedChar | ingest_data/ingest_hijk_data.py:31-33 | deleting the one '.' inserted into a dot-free token gives the token back |
| SheetText.ReplaceChar | ingest_data/ingest_hijk_data.py:16 | replacing `c` by `d` keeps the length and changes exactly the positions holding `c` |
| SheetText.ReplaceCharCount | ingest_data/ingest_hijk_data.py:16 | after replacing `c` by `d`, `c` occurs 0 times, `d` as often as `c` and `d` did together, every other character as often as before |
| SheetText.ReplaceCharCounts | ingest_data/ingest_hijk_data.py:16 | the same counts for every character at once |
| SheetText.ReplaceCharAbsent | ingest_data/ingest_hijk_data.py:16-18 | after replacing 'h' by ':', neither 'h' nor a character that was absent remains |
| SheetText.ReplaceCharNoop | ingest_data/ingest_hijk_data.py:16 | replacing a character that does not occur changes nothing |
| SheetText.ReplaceOO | ingest_data/ingest_hijk_data.py:28 | `replace('oo', '00')` keeps the length and leaves no "oo" |
| SheetText.ReplaceOOFromLeft | ingest_data/ingest_hijk_data.py:28 | occurrences are taken from the left: "ooo" becomes "00o" |
| SheetText.ReplaceOOChangesOnlyOs | ingest_data/ingest_hijk_data.py:28 | the "oo" repair only turns some 'o's into '0's |
| SheetText.ReplaceOOIdentity | ingest_data/ingest_hijk_data.py:27-28 | a string without "oo" is left unchanged by the repair |
| SheetText.ReplaceOOSkipsPrefix | ingest_data/ingest_hijk_data.py:28 | an 'o'-free prefix passes through the repair unchanged |
| HijkTime.ParseHM | ingest_data/ingest_hijk_data.py:29 | a successful `strptime(s, '%H:%M')` gives a valid time of a text holding a colon; a failed one raises ValueError on `s` |
| HijkTime.HourField | ingest_data/ingest_hijk_data.py:29 | `%H` reads one or two ASCII digits as an hour, always below 24 |
| HijkTime.MinuteField | ingest_data/ingest_hijk_data.py:29 | `%M` reads one or two ASCII digits as a minute, always below 60 |
| HijkTime.HourFieldSpells | ingest_data/ingest_hijk_data.py:29 | `%H` reads a text as hour n exactly when n < 24 and the text is n in one digit (n < 10) or two digits |
| HijkTime.MinuteFieldSpells | ingest_data/ingest_hijk_data.py:29 | `%M` reads a text as minute n exactly when n < 60 and the text is n in one digit (n < 10) or two digits |
| HijkTime.ParseHMSpellings | ingest_data/ingest_hijk_data.py:29 | the parse gives time t exactly when t is valid and the text is one of t's spellings: hour in one or two digits, ':', minute in one or two digits, nothing else |
| HijkTime.SpellingChars | ingest_data/ingest_hijk_data.py:25-34 | a spelling of a time has a ':' and neither 'o' nor '.', so no repair touches it |
| HijkTime.ParseFormatted | ingest_data/ingest_hijk_data.py:36 | parsing the "HH:MM" form of any valid time gives that time back |
| HijkTime.Render | ingest_data/ingest_hijk_data.py:24 | `str(time)` is "HH:MM:00", a time of day |
| HijkTime.ParseAndRender | ingest_data/ingest_hijk_data.py:35-37 | a parse-then-print either gives a time of day or raises ValueError on its input |
| HijkTime.Repaired | ingest_data/ingest_hijk_data.py:27-34 | a token with neither "oo" nor '.' is parsed as it stands |
| HijkTime.HandleTimeInputs | ingest_data/ingest_hijk_data.py:20-37 | "24:00" gives "00:00:00"; None exactly when the token has no ':'; any other answer is a time of day |
| HijkTime.HandleTimeInputsParsesRepaired | ingest_data/ingest_hijk_data.py:25-37 | other than "24:00", a token with a ':' raises ValueError exactly when its repaired text does not parse, and otherwise gives the parsed time as "HH:MM:SS" |
| HijkTime.SpelledTokenIsRead | ingest_data/ingest_hijk_data.py:25-37 | a token that spells a valid time ("8:30", "08:3", …) gives that time |
| HijkTime.UnspelledTokenRaises | ingest_data/ingest_hijk_data.py:35-37 | a token with a ':', nothing to repair, and no valid time it spells raises ValueError on itself |
| HijkTime.HalfPastEightIsRead | ingest_data/ingest_hijk_data.py:35-37 | "8:30" gives "08:30:00" |
| HijkTime.HourTwentyFiveRaises | ingest_data/ingest_hijk_data.py:35-37 | "25:00" raises ValueError |
| HijkTime.MidnightRenders | ingest_data/ingest_hijk_data.py:21-24 | midnight parses and prints as "00:00:00" |
| HijkTime.CanonicalIsFormatted | ingest_data/ingest_hijk_data.py:35-37 | every "HH:MM" token in the canonical range is the form of exactly one valid time |
| HijkTime.CanonicalParses | ingest_data/ingest_hijk_data.py:35-37 | a canonical token parses and prints as itself with ":00" appended |
| HijkTime.CanonicalTokenNormalises | ingest_data/ingest_hijk_data.py:35-37 | `handle_time_inputs` turns a canonical token into itself with ":00" appended |
| HijkTime.DottedTokenNormalises | ingest_data/ingest_hijk_data.py:31-34 | a canonical token with one stray '.' anywhere normalises like the token without it |
| HijkTime.OOMinutesNormalise | ingest_data/ingest_hijk_data.py:27-30 | "HH:oo" is read as HH:00 |
| HijkTime.ColonRuleComesFirst | ingest_data/ingest_hijk_data.py:25-34 | "8oo" and "14.30" give None (no colon), "8:oo" gives "08:00:00", and an empty cell gives None |
| HijkIngest.SquashAndReplace | ingest_data/ingest_hijk_data.py:42-46 | removing spaces and then replacing `c` by `d` leaves neither a space nor `c`, leaves clean text as it is, and puts `d` exactly where the space-free text had `c` |
| HijkIngest.SquashAndReplaceCounts | ingest_data/ingest_hijk_data.py:42-46 | every `c` is counted again as a `d`, and every character other than a space, `c` and `d` keeps its count |
| HijkIngest.CleanTime | ingest_data/ingest_hijk_data.py:14-18 | a cleaned START/END has no space and no 'h'; clean text is left as it is; in space-free text each 'h' becomes ':' and nothing else changes |
| HijkIngest.CleanDate | ingest_data/ingest_hijk_data.py:39-40 | a cleaned DATE has no backtick; clean text is left as it is |
| HijkIngest.CleanWaterLevel | ingest_data/ingest_hijk_data.py:42-46 | a cleaned WATERLEVEL has no space and no ','; clean text is left as it is; in space-free text each ',' becomes '.' and nothing else changes |
| HijkIngest.SquashAndReplaceOne | ingest_data/ingest_hijk_data.py:42-46 | in space-free text, the one `c` between two `c`-free parts becomes `d` |
| HijkIngest.HourMarkBecomesColon | ingest_data/ingest_hijk_data.py:14-18 | hours, 'h', minutes (as in "24h00") becomes hours, ':', minutes |
| HijkIngest.DecimalCommaBecomesPoint | ingest_data/ingest_hijk_data.py:42-46 | a value with one decimal comma (as in "4,5") becomes the same value with a point |
| HijkIngest.TypeLabel | ingest_data/ingest_hijk_data.py:48-55 | stormsluiting→STORM, testsluiting→TEST, functionele-/onderhoudsluiting→OPS; every other value is kept |
| HijkIngest.CleanTimeColumns | ingest_data/ingest_hijk_data.py:14-18 | `prepare_time_string` on a row: START and END keep their empty cells and lose every space and 'h'; the other columns are unchanged |
| HijkIngest.CleanDateColumn | ingest_data/ingest_hijk_data.py:39-40 | `prepare_date_string` on a row: DATE keeps an empty cell and loses every backtick; the other columns are unchanged |
| HijkIngest.CleanWaterLevelColumn | ingest_data/ingest_hijk_data.py:42-46 | `prepare_waterlevel_string` on a row: WATERLEVEL keeps an empty cell and loses every space and ','; the other columns are unchanged |
| HijkIngest.SetTypeColumn | ingest_data/ingest_hijk_data.py:48-55 | `set_type` on a row: no Dutch label is left in TYPE, an empty cell stays empty, and the other columns are unchanged |
| HijkIngest.PrepareRow | ingest_data/ingest_hijk_data.py:60-65 | `prepare_dataframe` on a row keeps NUMBER and the empty DATE, START and END cells, and leaves the row with no space or 'h' in START/END, no backtick in DATE, no space or ',' in WATERLEVEL and no Dutch label in TYPE |
| HijkIngest.PrepareRowIdempotent | ingest_data/ingest_hijk_data.py:60-65 | preparing a prepared row changes nothing |
| HijkIngest.PrepareSheetIdempotent | ingest_data/ingest_hijk_data.py:60-68 | preparing the sheet twice, first in `prepare_dataframe` and again inside `create_hijk_dict`, equals preparing it once |
| HijkIngest.IsPlaceholder | ingest_data/ingest_hijk_data.py:73 | an END continues the search exactly when it is the text "--" or ""; an empty (NaN) END stops it |
| HijkIngest.FirstEnd | ingest_data/ingest_hijk_data.py:72-74 | the END search stops at the first row at or after the start whose END is neither "--" nor empty, or finds none |
| HijkIngest.FindEnd | ingest_data/ingest_hijk_data.py:72-74 | the inner loop stops exactly at the row the END search finds, and runs off the end exactly when there is none |
| HijkIngest.DateText | ingest_data/ingest_hijk_data.py:76-78 | a missing or empty DATE prints "NaT"; other text gives the parsed date, or raises when it does not parse |
| HijkIngest.TimeText | ingest_data/ingest_hijk_data.py:77-79 | the record's time fields are exactly `handle_time_inputs`' answers, and its errors stay errors |
| HijkIngest.BuildRecord | ingest_data/ingest_hijk_data.py:75-82 | a record takes start date, start time, water level and type from the numbered row, and end date and end time from the closing row |
| HijkIngest.EventFor | ingest_data/ingest_hijk_data.py:71-82 | a numbered row with no closing row raises the out-of-bounds error; otherwise its record is built from it and its closing row |
| HijkIngest.Scan | ingest_data/ingest_hijk_data.py:69-83 | the `for` loop over the first n rows appends at most one record per row |
| HijkIngest.ScanNumberedStep | ingest_data/ingest_hijk_data.py:70-82 | a numbered row appends its record or stops the scan with its error |
| HijkIngest.ScanStep | ingest_data/ingest_hijk_data.py:70-82 | in a scan that has not failed, an unnumbered row adds nothing and a numbered row adds the record built for it |
| HijkIngest.ScanSkipsUnnumbered | ingest_data/ingest_hijk_data.py:71 | a row without NUMBER changes nothing |
| HijkIngest.FailureSticks | ingest_data/ingest_hijk_data.py:70-82 | after an error, later rows change nothing |
| HijkIngest.ScanStopsAt | ingest_data/ingest_hijk_data.py:70-82 | the first error is the one the whole scan ends with, keeping the records appended before it |
| HijkIngest.ScanEmitsOnePerNumberedRow | ingest_data/ingest_hijk_data.py:70-83 | a scan without error gives exactly one record per numbered row, in row order, each built for its row |
| HijkIngest.UnterminatedClosureFails | ingest_data/ingest_hijk_data.py:73 | a closure no later row closes makes the scan fail with the out-of-bounds error |
| HijkIngest.UnclosedEvent | ingest_data/ingest_hijk_data.py:72-74 | with only "--" or empty ENDs from a numbered row on, the END search finds nothing and the row raises the out-of-bounds error |
| HijkIngest.CanonicalTimeText | ingest_data/ingest_hijk_data.py:77-79 | a canonical time cell becomes the record's time with ":00" appended |
| HijkIngest.EndTakenFromLaterRow | ingest_data/ingest_hijk_data.py:72-82 | a closure whose END is "--" takes its end date and end time from the next row, with canonical times read as themselves plus ":00" |
| HijkIngest.IngestHijk.constructor | ingest_data/ingest_hijk_data.py:9-12 | the ingester starts with the sheet, the abbreviation "HIJK" and no records |
| HijkIngest.IngestHijk.PrepareTimeString | ingest_data/ingest_hijk_data.py:14-18 | the START and END columns are cleaned in place, and the records are unchanged |
| HijkIngest.IngestHijk.PrepareDateString | ingest_data/ingest_hijk_data.py:39-40 | the DATE column is cleaned in place |
| HijkIngest.IngestHijk.PrepareWaterlevelString | ingest_data/ingest_hijk_data.py:42-46 | the WATERLEVEL column is cleaned in place |
| HijkIngest.IngestHijk.SetType | ingest_data/ingest_hijk_data.py:48-55 | the TYPE column is relabelled in place |
| HijkIngest.IngestHijk.PrepareDataframe | ingest_data/ingest_hijk_data.py:60-65 | the sheet becomes every row prepared |
| HijkIngest.IngestHijk.CreateHijkDict | ingest_data/ingest_hijk_data.py:67-83 | the sheet is prepared; `closure_record` gains the scan's records after earlier calls' records; the whole list is returned, or the scan's error is |
| HijkIngest.IngestHijk.ScanSheet | ingest_data/ingest_hijk_data.py:69-83 | the two nested loops compute exactly the scan, and on an error keep the records appended before it |
| Store.FindBarrier | data_handler.py:20-21 | `.first()` by abbreviation finds the first matching barrier in store order, or there is none |
| Store.CountBarriers | data_handler.py:106-107 | the matching barriers number 0 exactly when `.first()` finds none |
| Store.ScalarBarrierId | data_handler.py:106-107 | `.scalar()` gives None for no match, the ID for one match, and raises for several |
| Store.FirstBarrierId | reliability/data_handler.py:57-58 | the ID lookup by `.first()` finds an ID exactly when some barrier has the abbreviation |
| Store.UniqueAbbreviationIsScalar | data_handler.py:106-107 | with unique abbreviations, `.scalar()` and `.first()` agree |
| Store.Abbreviations | data_handler.py:95-100 | one abbreviation per barrier, in store order |
| Store.Database.AllAbbreviations | reliability/data_handler.py:126-131 | the abbreviation column of the barrier table |
| Store.UpsertedBarriers | data_handler.py:17-30 | a dict without Abbreviation raises KeyError; every error is KeyError, TypeError or a rejected commit |
| Store.UpsertBarrierStores | data_handler.py:20-30 | after an upsert, the abbreviation finds an accepted barrier holding every column value the dict gives, and the other barriers are unchanged; on a match that barrier keeps its ID and every column the dict does not name, and nothing is added; otherwise exactly the new barrier (ID `nextId`, the dict's values) is appended |
| Store.UpsertBarrierKeepsAbbreviationsUnique | data_handler.py:20-30 | the abbreviations stay as they were, or gain the new one at the end, so unique ones stay unique |
| Store.UpsertBarrierIdempotent | data_handler.py:17-30 | upserting the same dict again changes nothing |
| Store.Database.UpsertBarrier | reliability/data_handler.py:17-30 | on success the table is the upserted one; on failure nothing is stored; closures are untouched |
| Reconcile.FindClosure | data_handler.py:119-123 | the dedup lookup finds the first stored event with the record's key values and barrier, or there is none |
| Reconcile.Write | data_handler.py:119-133 | a record lacking a key field raises KeyError; a write lands on a position of the new table |
| Reconcile.WriteStores | data_handler.py:125-133 | a match gets every column the record names, keeps every other column and the table keeps its length; no match appends exactly the record for the barrier; nothing else changes; the key now finds the written event |
| Reconcile.WriteAbsorbs | data_handler.py:125-133 | writing the same record again changes nothing |
| Reconcile.WriteIndependent | reliability/data_handler.py:67-81 | a write under another key leaves another record's outcome as it was |
| DataHandler.WithDefaultResult | data_handler.py:116 | `setdefault` adds ClosureEventResult "SUCCESS" only when it is absent and changes no other key |
| DataHandler.DefaultKeepsKey | data_handler.py:116-123 | the default leaves the record's dedup key alone |
| DataHandler.InsertStep | data_handler.py:115-142 | a record commits exactly when its write succeeds and the database accepts the written event; otherwise it is rolled back |
| DataHandler.InsertAll | data_handler.py:115-142 | one verdict per record |
| DataHandler.SkippedRecords | data_handler.py:136-144 | at most one skipped entry per record |
| DataHandler.SkippedRecordsCount | data_handler.py:115-144 | every record is either committed or listed as skipped, never both: the list has one entry per skipped verdict, and entries plus commits number the batch |
| DataHandler.SkippedEntry | data_handler.py:136-142 | the k-th entry is the k-th skipped record in input order, with `ClosureEventResult` defaulted, paired with that record's own error |
| DataHandler.SkippedRecordsExact | data_handler.py:136-144 | the list holds exactly the skipped records, in increasing input order, each with its default applied and its own error |
| DataHandler.WriteAccepted | data_handler.py:135-142 | a write is committed only for a row that carries its `StartDate` key |
| DataHandler.StatusCode | data_handler.py:76-93 | 404 exactly for a missing barrier, 409 exactly for a duplicate, 201 exactly for an insert |
| Reconcile.Matches | data_handler.py:119-123 | a stored row matches the lookup only if it holds each given (non-null) key value in the named column |
| DataHandler.InsertAllCounts | data_handler.py:115-142 | nothing is deleted; each committed record adds at most one event |
| DataHandler.InsertStepStable | data_handler.py:115-135 | a committed record with another key leaves a settled record settled |
| DataHandler.InsertAllSettles | data_handler.py:115-142 | after the batch, re-running any one record changes nothing and gives its verdict again |
| DataHandler.SettledBatchIsFixed | data_handler.py:115-142 | a table that every record leaves unchanged is a fixed point of the batch |
| DataHandler.InsertAllIdempotent | data_handler.py:102-144 | with distinct keys, re-sending a batch changes nothing and skips the same records with the same errors |
| DataHandler.RepeatedKeyFirstRun | data_handler.py:115-142 | on an empty table, a typeless record refused by the database is rolled back and a later record with its key is stored |
| DataHandler.RepeatedKeySecondRun | data_handler.py:119-135 | on the second run the typeless record finds that event and adds its water level to it |
| DataHandler.InsertAllRepeatedKeyNotIdempotent | data_handler.py:102-144 | without distinct keys, re-sending a batch can change the table |
| DataHandler.BatchBarrier | data_handler.py:106-111 | the barrier is the single match with a non-zero ID; no match or ID 0 raises ValueError; several matches raise |
| DataHandler.InsertClosureEvents | data_handler.py:102-144 | no barrier leaves the table untouched; otherwise the table is the batch's result and the skipped records are returned |
| DataHandler.SingleInsert | data_handler.py:71-93 | 404 exactly when no barrier matches; a missing StartDate or EndDate raises KeyError; for a found barrier and both dates: 409, with the table unchanged, exactly when an event with those dates and barrier is stored; otherwise TypeError exactly when a key names no column, a rejected commit exactly when the database refuses the event, and 201 exactly when it accepts it, appending exactly that event |
| DataHandler.SingleInsertOutcomes | data_handler.py:78-93 | 409 exactly when an event with the record's start date, end date and barrier is stored; 201 exactly when none is, every key names a column and the database accepts the event; 201 stores the record for the barrier, and the same request then answers 409 |
| DataHandler.BarrierIdKeyRaises | data_handler.py:86-88 | a record carrying its own `BarrierID` key, as the HTTP route's closure dict does, raises TypeError for a new period |
| DataHandler.InsertSingleClosureEvent | data_handler.py:71-93 | the database ends as the single insert says, or unchanged on an error |
| ReliabilityHandler.UpsertStep | reliability/data_handler.py:60-85 | a record is passed over exactly when a date is 'NaT'; it is staged exactly when its write succeeds; anything else leaves the session's table alone |
| ReliabilityHandler.UpsertAll | reliability/data_handler.py:60-85 | one verdict per record |
| ReliabilityHandler.Printed | reliability/data_handler.py:83-85 | at most one printed error per record |
| ReliabilityHandler.PrintedCount | reliability/data_handler.py:64-85 | one printed line per skipped verdict; printed, staged and passed-over records together number the input |
| ReliabilityHandler.PrintedEntry | reliability/data_handler.py:83-85 | the k-th printed line is the error of the k-th skipped record in input order |
| ReliabilityHandler.PrintedExact | reliability/data_handler.py:83-85 | one line per failing record, in input order, each that record's own error; printed, staged and ignored records together number the input |
| ReliabilityHandler.CommitAccepted | reliability/data_handler.py:87 | the single commit succeeds when nothing was staged, and only when every staged row is accepted by the store |
| ReliabilityHandler.UpsertAllCounts | reliability/data_handler.py:60-85 | nothing is deleted; each staged record adds at most one event |
| ReliabilityHandler.UnknownBarrierStillWrites | reliability/data_handler.py:57-81 | an abbreviation naming no barrier still stages the record, with a NULL barrier; whether the commit keeps it is up to the database's `acceptsClosure` |
| ReliabilityHandler.UpsertStepStable | reliability/data_handler.py:67-81 | a staged record with another key leaves a settled record settled |
| ReliabilityHandler.UpsertAllSettles | reliability/data_handler.py:60-85 | after the list, re-running any one record changes nothing and gives its verdict again |
| ReliabilityHandler.SettledListIsFixed | reliability/data_handler.py:60-85 | a table that every record leaves unchanged is a fixed point of the list |
| ReliabilityHandler.UpsertAllIdempotent | reliability/data_handler.py:52-87 | with distinct keys, re-sending the list changes nothing and prints the same errors, so its commit writes no event |
| ReliabilityHandler.UpsertClosureDataList | reliability/data_handler.py:52-87 | the table is the list's result when the single commit is accepted, and unchanged (with the error) when it is not |
| ReliabilityHandler.SingleDictAsWritten | reliability/data_handler.py:98-105 | the dict as written holds the period's start and end date but a key, "Success", that names no column, and no ClosureEventResult |
| ReliabilityHandler.SingleDict | reliability/data_handler.py:98-105 | the corrected dict names only columns and stores SUCCESS or FAILURE in ClosureEventResult |
| ReliabilityHandler.SingleInsert | reliability/data_handler.py:107-124 | False, with the table unchanged, exactly when an event with the same start date, end date and barrier is stored; TypeError exactly when there is none and a key names no column; True appends exactly the new event |
| ReliabilityHandler.SingleInsertAsWrittenNeverInserts | reliability/data_handler.py:98-124 | as written, a stored event with the same start date, end date and barrier gives False; with none, TypeError; on an empty table always TypeError |
| ReliabilityHandler.SingleInsertInserts | reliability/data_handler.py:107-124 | corrected, a new period is stored as exactly one event, and the same call then answers False |
| ReliabilityHandler.InsertSingleClosure | reliability/data_handler.py:89-124 | the database ends as the corrected single insert says, or unchanged on an error |
| Estimators.CountEvents | data_handler.py:157-166 | a count is at most the table size and is 0 exactly when no event matches |
| Estimators.CountEventsAppend | data_handler.py:157-166 | one more event raises a count by one exactly when the query matches it |
| Estimators.Truncate | data_handler.py:195 | `int(x)` truncates toward zero |
| Estimators.RuleOfThree | data_handler.py:146-196 | an unknown abbreviation gives the message; the only error is ZeroDivision, for `rule_number` 0 |
| Estimators.RuleOfThreeBound | data_handler.py:156-189 | "not applicable" exactly when there are no successes; a bound exactly when there are successes and `rule_number` ≠ 0; the bound is `rule_number` / successes; the "1 in N" is 1/bound truncated; the answer carries the found barrier's name; the confidence depends on `rule_number` alone |
| Estimators.RuleOfThreeOutcome | data_handler.py:156-189 | which of "not applicable", error and bound is given, by the success count and `rule_number`, always naming the found barrier |
| Estimators.RuleOfThreeFields | data_handler.py:183-195 | an upper-bound answer carries the success count, the bound `rule_number` / s, its truncated reciprocal and the confidence of `rule_number` |
| Estimators.RuleOfThreeShrinks | data_handler.py:177-183 | one more successful closure makes the rule applicable or lowers the bound |
| Estimators.BetaAsWritten | data_handler.py:198-252 | an unknown abbreviation gives the message; with a prior and a type given, the answer is the corrected estimator's |
| Estimators.BetaAsWrittenPosteriorMean | data_handler.py:216-252 | as written, with a prior in (0, 1] and a type given, the mean is (1+f)/(1+f+b+s), in (0, 1], below 1 once there is a success |
| Estimators.BetaDistribution | data_handler.py:198-252 | corrected: an unknown abbreviation gives the message; the prior counts as informative exactly when one is given |
| Estimators.BetaPosteriorMean | data_handler.py:216-238 | with a prior in [0, 1] or none, the mean is (1+f)/(1+f+b+s) over the barrier's failures and successes, lies in (0, 1], and is below 1 once there is a success |
| Estimators.PriorBNonNegative | data_handler.py:202-205 | b ≥ 0: 1/p − 1 for a prior p in (0, 1], and 1 for no prior or 0 |
| Estimators.PriorB | data_handler.py:199-205 | with a prior p, (1 + b)·p = 1, so the Beta(1, b) prior has mean p; without one, b = 1 |
| Estimators.PosteriorMean | data_handler.py:234-238 | undefined exactly when the denominator 1 + f + b + s is 0; otherwise the mean times that denominator is 1 + f |
| Estimators.Bound | data_handler.py:183 | the bound times the success count is the rule number, and the bound is 0 exactly when the rule number is 0 |
| Estimators.CountedHasColumns | data_handler.py:157-166 | a counted row belongs to a barrier and has a stored result, and a stored type whenever it is counted under a non-null type filter |
| Estimators.Successes | data_handler.py:157-166 | the SUCCESS count under the filter is at most the number of stored rows |
| Estimators.Failures | data_handler.py:228-232 | the FAILURE count under the filter is at most the number of stored rows |
| Estimators.MeanBounds | data_handler.py:234-238 | for b ≥ 0 the posterior mean exists and lies in (0, 1] |
| Estimators.MeanRisesWithFailure | data_handler.py:234-238 | for b ≥ 0 one more failure never lowers the mean |
| Estimators.BetaRecoversPrior | data_handler.py:202-238 | with no events recorded the posterior mean is the prior |
| Estimators.BetaFailureRaisesMean | data_handler.py:228-238 | one more failed closure of the barrier never lowers the mean |
| Estimators.BetaUniformExample | data_handler.py:199-238 | uniform prior, 2 failures and 8 successes give 0.25 |
| Estimators.BetaAsWrittenFalsyPriorRaises | data_handler.py:245 | as written, for a known barrier, a prior of None or 0 always raises |
| Estimators.BetaUniformPriorAnswers | data_handler.py:199-245 | corrected, no prior gives the uniform estimate (1+f)/(2+f+s), marked uninformative |
| Estimators.BetaAsWrittenMissesTypedFailures | data_handler.py:228-232 | as written, one FAILURE of type STORM is not counted without a type filter (mean 1/2 where counting it gives 2/3) |
| Estimators.UntypedFailureCountIsZero | data_handler.py:231 | as written, with every stored event typed, the unfiltered failure count is always 0 |

## Left out

- The HTTP layer, the session factory, and session state are not modelled (autoflush, `refresh`, `to_dict`, JSON encoding). Each handler call is one session on one database.
- The read-only listing queries are not modelled: `get_all_barriers`, `get_all_closures`, `get_closures_by_abbreviation`. Neither is `put_closure_data`. None of them is part of this model.
- The commit is modelled as a predicate on the rows a commit writes (`acceptsBarrier`, `acceptsClosure`). The schema's NOT NULL, type and enum checks are not spelt out.
- The barrier ID from a one-column `.first()` Row is modelled as the ID itself.
- Barrier dict keys `ID` and closure dict keys `ID`/`BarrierID` are treated like any key that names no column.
- `Rejected` and `InvalidKeyword` carry no message text, and error messages are not modelled. The skipped records carry the error kind, not `str(e)`.
- `setdefault` mutates the caller's dicts. The model works on a copy, so that aliasing is not modelled.
- Printing in the `reliability/` handler is modelled as the list of printed errors.
- `int`/`float` typing of cells and Unicode digits are not modelled. Sheet cells are text or empty, and `%H`/`%M` accept ASCII digits only.
- A pandas index label is taken to be its row position (`df.iloc[i]` and `iterrows` agree on a default index).
- Date parsing (`pd.to_datetime(...).date()`) is a parameter `parseDate`, not a model of pandas. Only empty text is fixed to "NaT"; any other text pandas reads as NaT is up to `parseDate`.
- InsertAllIdempotent and UpsertAllIdempotent hold only for batches with distinct keys: with a repeated key the source is not idempotent (`DataHandler.InsertAllRepeatedKeyNotIdempotent`).
- RuleOfThree: the confidence level `1 - exp(-n)`, rounded to 0.005, is a parameter `confidenceOf` of `rule_number`. Floating-point rounding of the bound and of the mean is not modelled; reals are exact.
- Estimators.RuleOfThree: a type filter value outside the enum is treated as matching no event.
- The estimators' messages are not modelled. Only the values their messages compute are modelled, and the errors computing them raises.
- `upsert_barrier` and `get_all_abbreviations` are defined identically in both handler files. Each is modelled once, in `Store`.

## Findings

| source | as written | input that shows it | evidently intended | confidence | as-written member | corrected member |
|---|---|---|---|---|---|---|
| reliability/data_handler.py:98-105 | the dict passed to the ORM constructor has the key "Success", which names no column, so every insert raises TypeError | any new period, e.g. an empty table | store the outcome in ClosureEventResult as SUCCESS/FAILURE and insert the event | high, not executed | ReliabilityHandler.SingleInsertAsWrittenNeverInserts | ReliabilityHandler.SingleInsertInserts |
| data_handler.py:245 | the message computes `int(1/prior_failure_rate)` even when no prior is given, raising TypeError for None and ZeroDivisionError for 0 | `prior_failure_rate=None` for an existing barrier | the uniform-prior estimate, with no "1 in N" for the prior | high, not executed | Estimators.BetaAsWrittenFalsyPriorRaises | Estimators.BetaUniformPriorAnswers |
| data_handler.py:231 | without a closure type the failure count filters `ClosureEventType IS NULL`, so typed failures are never counted | one FAILURE event of type STORM and prior 0.5: mean 1/2 instead of 2/3 | count failures under the same filter as successes | high, not executed | Estimators.BetaAsWrittenMissesTypedFailures | Estimators.BetaPosteriorMean |
