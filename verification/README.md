# YC companies ledger sync, modelled in Dafny

The script `yc_scraper.py` fetches the public JSON listing of Y Combinator
companies. It appends every company it has not recorded before to a CSV
ledger. It has three steps:

- `load_existing_ids` reads the ids already in the ledger.
- `append_new_companies` writes the header if the file is new, then one row per company whose `str(id)` is not among those ids, and counts the rows.
- `main` fetches, scans, then appends.

This project models those steps as pure functions over immutable values:

- **Ledger** (`Sync.Ledger`): `Absent` before the first run. Otherwise `Present(header, rows)`, where each row maps column name to cell text, as `csv.DictReader` yields it.
- **Company** (`Records.Company`): a record in which every field may be missing. Scalar fields hold a JSON scalar (`Json.Scalar`: null, string, integer or boolean). `tags`, `regions` and `industries` hold `null` or a list of strings.
- **Row projection** (`Records.Cell`, `Records.RowOf`):
  - the `id` column is Python's `str(id)`;
  - the thirteen copied columns take the field's value, with `None` written as the empty cell;
  - `launched_at_date` is `unix_to_date` of `launched_at`;
  - the three list columns are the items joined with `", "`.
- **Dates** (`Calendar`, `UnixDate`): the UTC date follows "Seconds Since the Epoch" (section 4.16 of the POSIX.1-2017 Base Definitions). There are no leap seconds, and the calendar is the proleptic Gregorian one.
  - Day numbers become dates by splitting the days since 0001-01-01 into 400-, 100-, 4- and 1-year blocks, then walking the months.
  - That conversion is proved inverse to an independent day count built from the leap-year rule.
- **One run** (`Sync.Run`): maps a ledger and a fetched batch to the new ledger and the number of rows appended.

Follow-on properties are proved as lemmas:

- skip-if-known, per key;
- duplicates within one batch are kept;
- numeric and string ids coincide;
- the header is written exactly once;
- the ledger is append-only across any number of runs;
- idempotence, and where it fails;
- ids stay unique when the batch repeats only empty or already recorded keys.

Three behaviours of the code are worth stating up front:

- **Duplicate ids in one batch.** The known-id set is never extended inside the loop (`yc_scraper.py:68-94`), so two new records sharing an id are both appended, and the ledger then holds that id twice. `Sync.DuplicatesInOneBatchAreBothAppended` shows this. `Sync.RunKeepsIdsUnique` proves ids stay unique when every key the batch repeats is empty or already in the ledger.
- **Re-running.** The scan drops empty ids (`yc_scraper.py:23`), so a record whose `str(id)` is empty is appended again on every run. `Sync.SecondRunAppendsOnlyEmptyKeys` gives exactly what a second run appends. `Sync.RunIdempotent` shows a second run changes nothing when no key is empty.
- **Missing ids.** A record with no `id` gets the key `str(None)`, i.e. the text `None`. It is not skipped, and once written it is treated as known.

## Model

| member | source | states |
|---|---|---|
| Sync.IdsOf | yc_scraper.py:19-24 | Scanning rows yields exactly the ids that some row carries as a non-empty `id` cell. |
| Sync.LoadExistingIds | yc_scraper.py:16-25 | An absent ledger gives no ids. A present one gives exactly the non-empty `id` values of its rows. The empty string is never among them, so rows with a missing or empty id are skipped without failing. |
| Sync.Fresh | yc_scraper.py:68-71 | Every selected record has a key that is not known, and the selection is no longer than the batch. |
| Sync.FreshMembers | yc_scraper.py:68-71 | A record is appended exactly when it is in the batch and its `str(id)` key is not among the known ids. |
| Sync.WriteLoop | yc_scraper.py:67-94 | The loop's written rows are the rows of the selected records, in input order. Its counter ends at its start value plus the number of rows written. |
| Sync.AppendNewCompanies | yc_scraper.py:37-94 | The header is `Fieldnames` when the ledger was absent; an existing ledger keeps its header, and no second header is written. The prior rows are a prefix of the new ones. The appended part is the rows of the selected records. The returned count equals the number of rows appended. |
| Sync.Run | yc_scraper.py:99-106 | On an absent ledger the run creates it with the header and one row per fetched record, in order, and reports the batch size. |
| Sync.RunRows | yc_scraper.py:99-106 | After a run the ledger holds its prior rows, then one row per record whose key the scan did not find, in fetched order. |
| Sync.RunCount | yc_scraper.py:67-94 | A run reports the number of fetched records whose key the scan did not find. |
| Sync.RunAfterFetch | yc_scraper.py:99-106 | A failed fetch leaves the ledger exactly as it was, absent included. A successful one only appends. |
| Sync.RunKeepsLedgerValid | yc_scraper.py:59-65 | From an absent ledger or one headed by the 18 columns, a run leaves a ledger headed by the 18 columns. |
| Sync.RowsOfConcat | yc_scraper.py:68-93 | Writing two batches one after the other gives the same rows as writing them as one batch. |
| Sync.FreshOfNothingKnown | yc_scraper.py:68-71 | With no known keys every fetched record is appended. |
| Sync.FreshConcat | yc_scraper.py:68-71 | Selection commutes with concatenation, so appended records keep their fetched order. |
| Sync.FreshKeyCount | yc_scraper.py:69-71 | For every key: a known key keeps no record; an unknown key keeps every record that has it. |
| Sync.RowsIdCount | yc_scraper.py:73-74 | Rows with id `k` are exactly as many as the records with key `k`. |
| Sync.AppendedIdCount | yc_scraper.py:67-94 | Among the appended rows, those with id `k` number 0 if `k` was known, otherwise the count of fetched records with that key. |
| Sync.DuplicatesInOneBatchAreBothAppended | yc_scraper.py:68-94 | Two fetched records with the same unrecorded key are both appended in one run, in order, and counted twice. |
| Sync.NumericIdMatchesStringId | yc_scraper.py:69-70 | A record with integer id `n` is skipped exactly when the ledger holds a row whose id is the decimal text of `n`. |
| Sync.NumericIdExample | yc_scraper.py:69-70 | A record with id `42` against a ledger holding id `"42"` appends nothing. |
| Sync.RunRecordsEveryKey | yc_scraper.py:67-94 | After a run on an absent ledger or one headed by the 18 columns, the scan of the new ledger finds every non-empty key of the batch. |
| Sync.FreshWhenAllKnown | yc_scraper.py:69-71 | A batch whose keys are all known appends nothing. |
| Sync.FreshWhenOnlyEmptyUnknown | yc_scraper.py:69-71 | When the known keys are exactly the non-empty ones, the records appended are the ones whose key is empty. |
| Sync.SecondRunAppendsOnlyEmptyKeys | yc_scraper.py:22-24 | On an absent ledger or one headed by the 18 columns, re-running the same batch appends exactly the rows of the records whose `str(id)` is empty, in fetched order, one row each, after the rows already there. |
| Sync.RunIdempotent | yc_scraper.py:99-106 | On an absent ledger or one headed by the 18 columns, if every key in the batch is non-empty, a second run with the same batch appends zero rows and leaves the ledger unchanged. |
| Sync.FreshKeepsKeysDistinct | yc_scraper.py:68-71 | If the batch repeats a key only when it is empty or known, the selected records have pairwise distinct non-empty keys. |
| Sync.UniqueIdsAfterAppend | yc_scraper.py:67-94 | Appending rows for records with distinct non-empty keys, none previously known, keeps the non-empty ids unique. |
| Sync.RunKeepsIdsUnique | yc_scraper.py:99-106 | On an absent ledger or one headed by the 18 columns whose non-empty ids are unique, they stay unique after a run whenever every key the batch repeats is empty or already recorded. |
| Sync.RunsAreAppendOnly | yc_scraper.py:59-65 | Over any number of runs, the rows only grow at the end. The header is the one present before, or `Fieldnames` when the first run created the file. A ledger headed by the 18 columns stays so. |
| Records.FieldnamesNameColumns | yc_scraper.py:38-57 | The header literal and the columns the row is built from agree: 18 names, in column order, each listed once, starting with `id`. |
| Records.RowOf | yc_scraper.py:73-93 | The written row has exactly the header's keys. Its `id` cell is the record's `str(id)` key. Every column's cell is the CSV text of that column's value. |
| Records.IdKeyOfId | yc_scraper.py:69 | The key of a missing or null id is `None`. A string id is its own key, an integer id's key parses back to the integer, and a boolean id's key is `True` or `False`. |
| Records.MissingFieldWritesEmptyCell | yc_scraper.py:73-92 | A missing field does not stop the row: its cell is empty, except a missing id, which is written as `None`. |
| Records.ListCellRecoversItems | yc_scraper.py:89-91 | With `c.get(key, []) or []`, a list column is empty when the list is missing, null or empty. Otherwise splitting it at `", "` recovers the items, if none contains the separator. |
| Json.CellText | yc_scraper.py:93 | A cell is empty exactly when the value is `None` or the empty string. A string is written as itself, and an integer as text that parses back to that integer. |
| Json.IntAndDecimalStringAgree | yc_scraper.py:69 | An integer id and its decimal text give the same key. No other integer gives that key. |
| Json.PyStrExamples | yc_scraper.py:69 | `str(42)` is `"42"`, `str(-7)` is `"-7"`, `str(None)` is `"None"`. |
| Decimal.Natural | yc_scraper.py:69 | The decimal text of a natural number is non-empty digits, without leading zero, and denotes that number. |
| Decimal.ParseDecimalString | yc_scraper.py:69 | Parsing `str(n)` returns `n` for every integer. |
| Decimal.DecimalStringInjective | yc_scraper.py:69 | Different integers have different decimal texts. |
| Decimal.Padded | yc_scraper.py:32 | A zero-padded field has exactly the requested width, only digits, and denotes the number. |
| Calendar.YearLength | yc_scraper.py:32 | The closed-form count of days before a year grows by 366 across leap years and 365 across the others. |
| Calendar.MonthsFillYear | yc_scraper.py:32 | The twelve month lengths add up to the year's length. |
| Calendar.DayInsideYear | yc_scraper.py:32 | The day number of a valid date lies between the starts of its year and the next. |
| Calendar.DaysFromCivilInjective | yc_scraper.py:32 | Distinct valid dates have distinct day numbers. |
| Calendar.CycleDecomposition | yc_scraper.py:32 | A year start is a whole number of 400-, 100-, 4- and 1-year blocks after 0001-01-01. |
| Calendar.MonthOfDay | yc_scraper.py:32 | Walking the months from a day of the year gives a valid date in that year with that day offset. |
| Calendar.CivilFromDays | yc_scraper.py:32 | Every day number converts to a valid date whose day number is that day number. |
| Calendar.CivilFromDaysInverse | yc_scraper.py:32 | Converting the day number of a valid date gives the date back. |
| Calendar.CivilFromDaysYearRange | yc_scraper.py:32 | A day number between the starts of two years converts to a date in a year between them. |
| UnixDate.ParseFormatDate | yc_scraper.py:32 | A `%Y-%m-%d` string reads back as the date it was formatted from. |
| UnixDate.UnixToDate | yc_scraper.py:28-34 | The result is non-empty exactly when the timestamp is present, is an integer or boolean, and lies in years 1 to 9999. Then it is a `YYYY-MM-DD` date whose day contains the timestamp. `None`, strings and out-of-range values give `""`. |
| UnixDate.UnixToDateWithoutDate | yc_scraper.py:28-34 | A missing timestamp, `null`, a string, and values one second outside the range all give `""`. |
| UnixDate.UnixToDateOfDay | yc_scraper.py:32 | An in-range timestamp that falls on day `d` is rendered as `d`. |
| UnixDate.UnixToDateEpoch | yc_scraper.py:32 | Timestamp `0` gives `"1970-01-01"`. |
| UnixDate.UnixToDateNewYear2020 | yc_scraper.py:32 | Timestamp `1577836800` gives `"2020-01-01"`. |
| Join.SplitJoin | yc_scraper.py:89-91 | Splitting a join of one or more separator-free items gives the items back. |
| Join.JoinExamples | yc_scraper.py:89-91 | `["ai", "devtools"]` joins to `"ai, devtools"`. The empty list and `[""]` both join to `""`. |

## Left out

- `fetch_yc_companies` (`yc_scraper.py:10-13`): the HTTP request, its 60-second timeout and its status check are not modelled. The fetched batch is an input. A failed fetch is the `None` argument of `Sync.RunAfterFetch`.
- Sync.RunRecordsEveryKey: requires `Sync.ValidLedger`, a ledger that is absent or headed by the 18 columns. An existing file with another header, or an empty one, makes `csv.DictReader` key its rows differently, so reading back what was written is outside this model.
- Sync.SecondRunAppendsOnlyEmptyKeys: requires `Sync.ValidLedger`, a ledger that is absent or headed by the 18 columns. An existing file with another header, or an empty one, makes `csv.DictReader` key its rows differently, so reading back what was written is outside this model.
- Sync.RunIdempotent: requires `Sync.ValidLedger`, a ledger that is absent or headed by the 18 columns. An existing file with another header, or an empty one, makes `csv.DictReader` key its rows differently, so reading back what was written is outside this model.
- Sync.RunKeepsIdsUnique: requires `Sync.ValidLedger`, a ledger that is absent or headed by the 18 columns. An existing file with another header, or an empty one, makes `csv.DictReader` key its rows differently, so reading back what was written is outside this model.
- CSV encoding is not modelled: quoting, newline handling, UTF-8, and how `DictReader` keys rows by the file's own header. A written row is read back as the same column-to-text map. If an existing file had a different header, its rows would be keyed differently; the model does not cover that. An existing but empty file gets rows without a header, and the model reproduces that, but a later read would take the first row as the header.
- The summary line printed at `yc_scraper.py:96` is not modelled. `newCount` is returned instead.
- Write errors and crashes part-way through a run are not modelled. A run appends all of its rows or none.
- UnixDate.UnixToDate: the range check is the Python `datetime` year range, years 1 to 9999. Some platforms' `utcfromtimestamp` rejects more, for example negative timestamps. Float timestamps are not modelled.
- UnixDate.FormatDate: years below 1000 are zero-padded to four digits. The C library's `%Y` may print fewer digits for them.
- JSON floats, arrays and objects as values of scalar fields are not modelled, since their `str` forms are outside this model.
- Lists with non-string items are not modelled; `", ".join` raises on them.
- A non-list, non-null value in `tags`, `regions` or `industries` is not modelled. The script would iterate a string's characters or raise, and the typed record rules both out.
- The commented-out Series A filter (`yc_scraper.py:102-103`) is inactive, so it is not modelled.
- Two runs at once against the same ledger are not modelled; the script does not guard against them.
