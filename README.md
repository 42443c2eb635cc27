# Weather station ingestion and yearly summaries, modelled in Dafny

This project models the data pipeline of the `cor-challenge` weather service. Daily observation files, one per weather station, are loaded into a `station_data` table. Each file's base name gives its station id, and each line holds a date, a maximum and a minimum temperature and a total precipitation. Every (station, date) is held by exactly one row. A later load of the same day overwrites that row's three measurements and keeps its `id`. The value -9999 means "not measured" and is stored as NULL. A second step, `summarize_stations`, groups the daily rows by station and calendar year. It computes the NULL-aware average maximum and minimum temperature, rounded to one decimal, and the NULL-aware precipitation total. It merges them into `station_summary`, keyed by (station, year), in the same insert-or-overwrite way.

The model has one module per concern:

- `Wrappers`: `Option` and `Result`.
- `Models`: the two row types, `StationData` and `StationSummary`, with their natural keys and nullable columns.
- `Upsert`: SQLite's `INSERT ... ON CONFLICT (key) DO UPDATE SET <all non-key columns>` as a function on a table state. The state is the rows in rowid order plus the next rowid. Both tables instantiate this one generic model.
- `Tables`: a `Table` class whose `Upsert` method runs one such statement, row after row, on its fields `rows` and `nextId`.
- `Chunking`: `chunk_generator`.
- `Reader`: `read_data`, with Python's `str.split`.
- `Loader`: `load_data` (the method `LoadData`) and the `main` of the load script (the method `Ingest`).
- `Aggregation`: the `SELECT ... GROUP BY` of the summary.
- `Summarizer`: `summarize_stations`.
- `Fixtures`: the end-to-end scenario of the repository's tests, proved on concrete data.

Three behaviours of the code are easy to miss, and the model keeps them:

- With the extension test corrected (see "## Findings"), a file whose name has no `.` makes `read_data` raise `IndexError`. Nothing in `main` catches it, so the run stops there. The files before it stay loaded, because every `load_data` call commits its own session. No file is skipped in order to go on. As written, line 74 raises `AttributeError` on every file before that point is reached.
- The station id is the name up to the first `.`. The extension tested is the part between the first and the second `.`. So `a.b.csv` is skipped as "not csv".
- There is one commit per `load_data` call, that is per file, not one per chunk.

## Model

| member | source | states |
|---|---|---|
| Chunking.Chunks | scripts/load.py:21-38 | For a positive size, the chunks concatenate back to the input, in order. Each chunk is non-empty and at most `size` long, and all but the last are exactly `size` long. There are ⌈n/size⌉ chunks. A negative size gives no chunks. |
| Chunking.ChunkAt | scripts/load.py:37-38 | The k-th chunk is the slice starting at k·size and cut at the end of the list, as `range(0, len, size)` steps. |
| Reader.Split | scripts/load.py:74-76 | `str.split` with a one-character separator always gives at least one part. There is more than one part exactly when the separator occurs. No part contains it. Joining the parts with it gives the string back. |
| Reader.StationIdIsPrefix | scripts/load.py:76 | The station id is a dot-free prefix of the file name, followed by a `.` when it is shorter than the name. |
| Reader.ReadData | scripts/load.py:58-81 | A name with no `.` is an error (`IndexError`), and only such a name is. A name whose second part is not `csv` gives no records. A `.csv` file gives one record per line, in order, keyed by (station id, date), with each -9999 turned into NULL and every other value kept. |
| Reader.NoSentinelStored | scripts/load.py:77 | No record that is read holds -9999 in any measurement. |
| Reader.TxtFileSkipped | scripts/load.py:79-81 | A `<station>.txt` file yields no records. These are the names the test fixtures write. |
| Reader.AsWrittenRejectsCsv | scripts/load.py:74 | As written, even `<station>.csv` fails, although the intended test reads it under the station id with one record per line. |
| Upsert.Find | app/models.py:22 | The conflict check returns the position of a row holding the key, and returns none only when no row holds it. |
| Upsert.LatestIsLast | scripts/load.py:116-123 | The fields written for a key are those of the last entry with that key. No later entry has the key, and "none" means no entry has it. |
| Upsert.UpsertAllEffect | scripts/load.py:115-123 | An upsert keeps both constraints: unique (station, date) and unique positive ids. Old rows keep position, id and key, and take the last written fields for their key (unchanged if none). New rows get consecutive fresh ids and keys that were not present. Every key written has a row. |
| Upsert.UpsertAllAppend | scripts/load.py:111-126 | Writing a + b equals writing a, then b. So splitting the records into chunks does not change the result. |
| Upsert.UpsertAllLastWriteWins | scripts/load.py:116-123 | After an upsert, each written key is held by exactly one row, and that row has the fields of the last record with that key. |
| Upsert.UpsertAllKeepsOtherRows | scripts/load.py:115-123 | Nothing is deleted. Every old row keeps its id and key, and a row whose key is not written is unchanged. |
| Upsert.UpsertAllIdempotent | scripts/load.py:112-114 | Writing the same records again leaves the table as the first write left it: no duplicates, no new ids. |
| Upsert.UpsertAllKeepsDense | app/models.py:15 | If the ids were 1..n, they are 1..m afterwards. |
| Upsert.UpsertAllNewRowsInEntryOrder | app/models.py:15 | New rows are appended in the order in which their keys first occur among the records. |
| Upsert.UpsertDistinctIntoEmpty | app/models.py:15 | Records with distinct keys written into an empty table become its rows, in order, with ids 1..n. |
| Tables.Table.constructor | app/models.py:8-22 | A new table is empty and satisfies its constraints, including ids 1..n with the next id n + 1 (max(id) + 1, as SQLite assigns it). |
| Tables.Table.Upsert | scripts/load.py:115-125 | One statement updates the rows and the next id exactly as the upsert function does, keeps the constraints (dense ids included), and reports one change per row of the statement. |
| Loader.LoadData | scripts/load.py:84-127 | For a positive chunk size, the daily table ends as one upsert of all records would leave it, and the count is the number of records. For a negative size, nothing is written and the count is 0. |
| Loader.ReadFilesStopsAtFailure | scripts/load.py:145-148 | Once a file has failed to read, later files add nothing. |
| Loader.ReadFilesSnoc | scripts/load.py:145-147 | One more file stops the run exactly when its name has no `.`. Otherwise its records, as `read_data` gives them, are appended after those of the earlier files. A non-CSV file adds none, and a CSV file adds one per line. |
| Loader.LoadFile | scripts/load.py:146-148 | One pass of `main`'s loop: a read error leaves the table untouched and is returned. Otherwise the file's records are upserted, for a positive chunk size, and `load_data`'s count is returned. |
| Loader.IngestNext | scripts/load.py:145-148 | One pass of `main`'s loop, after a clean run of the earlier files: either the file's error ends the run with the table untouched, or the file's records extend those read so far, the table is the upsert of all of them (positive chunk size), and the count is theirs. |
| Loader.Ingest | scripts/load.py:130-150 | The daily table ends as the upsert of every record of the files read before the first failure, in file order. The result is the sum of the per-file counts, or the error that stopped the run. |
| Aggregation.Groups | scripts/summarize.py:33-39 | The GROUP BY keys: (station, year of the date), each once. Each is present exactly when some daily row belongs to it. |
| Aggregation.GroupsStartWithFirstRow | scripts/summarize.py:39 | The first daily row's group is listed first. |
| Aggregation.GroupsInFirstAppearanceOrder | scripts/summarize.py:39 | Groups are listed in order of first appearance: if group a is listed before group b, every row of b has an earlier row of a. |
| Aggregation.SelectSummaries | scripts/summarize.py:33-39 | There is one selected row per (station, year) group and no other, each with distinct keys. Each carries its group's rounded averages and total. |
| Aggregation.NonNullSingle | scripts/summarize.py:36-38 | One row contributes its column's value, once, to its own group only, and nothing when the value is NULL. |
| Aggregation.NonNullAppend | scripts/summarize.py:36-38 | The values aggregated over a + b are those over a followed by those over b. With `NonNullSingle` this fixes the aggregated values completely, duplicates included. |
| Aggregation.NonNullCount | scripts/summarize.py:36-38 | Each value is aggregated as many times as there are rows of the group holding it in that column. |
| Aggregation.NonNullMembers | scripts/summarize.py:36-38 | A value is aggregated for a group and column exactly when some row of the group holds it there. |
| Aggregation.NonNullEmpty | scripts/summarize.py:36-38 | A group has no values to aggregate in a column exactly when all its rows are NULL there. |
| Aggregation.GroupStatsNullIff | scripts/summarize.py:36-38 | Each derived column is NULL exactly when every day of the station-year is NULL in the underlying column. It is never zero in place of NULL. |
| Aggregation.SumBounds | scripts/summarize.py:38 | The sum of n values lies between n·lo and n·hi. |
| Aggregation.AvgWithin | scripts/summarize.py:36-37 | AVG is defined exactly when there is a value, and it lies between the least and the greatest value. |
| Aggregation.Round1Close | scripts/summarize.py:36-37 | `ROUND(x, 1)` moves x by at most 0.05. |
| Aggregation.Round1Exact | scripts/summarize.py:36-37 | `ROUND(x, 1)` leaves a value with one decimal as it is. |
| Aggregation.GroupCount | scripts/summarize.py:39 | The query returns as many rows as there are distinct (station, year) pairs. |
| Summarizer.SummarizeStations | scripts/summarize.py:14-61 | The daily table is only read. The summary table ends as the upsert of the selected rows and keeps its constraints. The count is the number of distinct (station, year) pairs. |
| Summarizer.OneSummaryPerGroup | scripts/summarize.py:46-54 | After summarizing, every station-year of the daily table is held by exactly one summary row, which carries that group's statistics. |
| Summarizer.SummaryKeepsOtherRows | scripts/summarize.py:42-54 | Summarizing deletes nothing and keeps every summary row's id and key. A station-year with no daily rows is left as it was. |
| Summarizer.SummaryFromEmpty | scripts/summarize.py:42-44 | Into an empty summary table, the groups arrive in order with ids 1..n, each carrying its statistics. |
| Summarizer.SummarizeTwiceSameAsOnce | scripts/summarize.py:46-54 | Summarizing unchanged daily data again leaves the summary table unchanged. |
| Fixtures.FixtureRead | tests/conftest.py:81-93 | The two fixture files, read in listing order, give six records in file order, with the -9999 values as NULL and no error. |
| Fixtures.FixtureDaily | tests/conftest.py:114-147 | Those six records loaded into an empty `station_data` give exactly the expected table, with ids 1..6. |
| Fixtures.FixtureSummary | tests/conftest.py:150-165 | Summarizing that table into an empty `station_summary` gives exactly the two expected rows, (0.0, -2.0, 4.0) and (1.0, -1.0, 6.0), and touches 2 rows. |

## Left out

- The file system is not modelled. `get_files` and the directory walk are replaced by a sequence of files, each with its base name and its already parsed lines, in listing order.
- Parsing is not modelled: `pandas.read_csv`'s whitespace tokenising, the date parsing, and a line that fails to parse. Every value is a real, and -9999 and -9999.0 compare equal as they do in pandas.
- The `print` diagnostics and timestamps are not modelled, and neither is the command line. In particular, `--chunk-size` reaches `main` as a string.
- SQLAlchemy sessions, transactions, the engine and concurrent readers are not modelled. Each statement is modelled as applied whole.
- Floating point is not modelled. Measurements, AVG, SUM and ROUND work on exact reals, with ROUND halving away from zero as SQLite's does.
- GROUP BY output order: SQL leaves it unspecified. The model lists groups in order of first appearance in `station_data`. SQLite usually sorts the rows to group them, so its groups come out in (station_id, year) order. That is why the tests expect id 1 for `USC00123456` (tests/conftest.py:155-156) whatever the load order. The two orders agree in `Fixtures` only because the files are listed there with `USC00123456` first. The order only affects which ids new summary rows receive.
- The year is the `year` field of the date. What `strftime('%Y', ...)` prints for years outside 0..9999 is not modelled, and dates are not checked to be valid calendar dates.
- The declared column widths (`String(50)`) and `Float(precision=1)` are not modelled. SQLite enforces neither.
- SQLite's limit on bound parameters per statement is not modelled.
- How pandas' missing value reaches the database is not modelled. `df.replace(-9999, pd.NA)` (scripts/load.py:77) on a column holding only integers, such as the fixture's minimum temperatures, probably yields `pd.NA` objects. `to_dict` then hands them to the `sqlite3` driver (scripts/load.py:115), which may refuse to bind them. The model stores NULL, the evident intent.
- Loader.LoadData: a chunk size of 0 is excluded by its precondition. `range` raises `ValueError` for a zero step, so that run fails before touching the table.
- Loader.Ingest: same precondition as `LoadData`, for the same reason.
- Test-side defects are not modelled. The fixtures write `.txt` files, which `read_data` skips (`Reader.TxtFileSkipped`), and the tests call `main` with a `db=` argument that it does not accept. `Fixtures` therefore names the files `.csv` and lists `USC00123456` first, the order that gives the expected ids.
- The HTTP query layer, `create_db`, configuration and `create_files__many` (random data) are not part of this model.

## Findings

| source | as written | input that shows it | evidently intended | confidence | as-written member | corrected member |
|---|---|---|---|---|---|---|
| scripts/load.py:74 | The extension test reads a `.str` attribute of `file_path.name`. That is a plain `str`, which has no such attribute, so every call raises `AttributeError`. | any file, e.g. `USC00123456.csv` | Split the name itself on `.` and compare the second part with `csv`, as line 76 does for the id. | not executed | Reader.AsWrittenRejectsCsv | Reader.ReadData |
