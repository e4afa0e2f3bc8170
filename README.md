# local_kopere_status — a Dafny model

This project models the core of the Moodle plugin `local_kopere_status`, an uptime board for a Moodle site. The model is built from five parts:

- **Ping task** (`ping.dfy`, module `PingTask`). Gated by an interval, it probes the site's own health endpoint and appends the outcome to a log table.
- **Hourly rollup task** (`rollup.dfy`, module `HourlyRollup`):
  - turns the previous hour's ok rows into an uptime percentage;
  - upserts that percentage into an hourly table;
  - purges both tables of the days before a retention cutoff.
- **Checker** (`checker.dfy`, module `Checker`):
  - classifies a health-endpoint answer;
  - stores log rows;
  - builds the freshness-aware per-component samples and the operational / partial / down summary.
- **Public page logic** (`logs.dfy`, module `Logs`):
  - the newest log row and the overall status taken from it;
  - the hour bars of the status window with their colour classes;
  - the title choice;
  - the list of monitored module names.
- **Install hook** (`install.dfy`, module `Install`). It seeds the hourly table with 100 % uptime for the 168 whole hours before the install, inserting in batches of 50 and skipping hours that already have a row.

Shared state lives in `tables.dfy` (module `Tables`):

- The class `Database` holds the log table, the hourly table, the next auto-increment log id, and the persisted `lastrun` setting. A `lastrun` of 0 means unset.
- A row's (year, month, day, hour) columns form an `HourKey`.
- The clock is a parameter `now`.
- The calendar conversions are parameters of type `Calendar` (a function from a timestamp to an `HourKey`):
  - `gmdate` (UTC), used by the tasks and the install hook;
  - `date` (server time zone), used by the page.
- Configuration values are parameters. A falsy or unset setting is 0.

## Model

| member | source | states |
|---|---|---|
| Tables.HourFloor | classes/local/logs.php:122 | floor(t / 3600) * 3600 is hour-aligned and `t` lies in the hour it starts |
| Tables.FindHour | classes/task/hourly_rollup_task.php:85-88 | the lookup of an hour's row: none iff no row has the key, otherwise the first row with that key |
| Tables.Retain | classes/task/hourly_rollup_task.php:112-124 | no kept row's day is before the cutoff day, and the delete never adds rows |
| Tables.RetainMembership | classes/task/hourly_rollup_task.php:112-124 | a row survives the day-cutoff delete iff it was there and its (year, month, day) is not lexicographically before the cutoff |
| Tables.RetainConcat | classes/task/hourly_rollup_task.php:112-124 | the day-cutoff delete acts row by row: deleting from a concatenation is deleting from each part |
| Tables.RetainIdempotent | classes/task/hourly_rollup_task.php:112-124 | deleting a second time with the same cutoff removes nothing more |
| Tables.RetainKeepsAll | classes/task/hourly_rollup_task.php:112-124 | a table with no row before the cutoff day is untouched |
| Tables.RetainKeepsIdsIncreasing | classes/task/hourly_rollup_task.php:112-117 | deleting log rows keeps the remaining ids in increasing order |
| Checker.Strpos | classes/local/checker.php:54 | strpos: the first position where the needle occurs, none iff it occurs nowhere |
| Checker.ClassifyHttp | classes/local/checker.php:54-58 | ok iff the code is 200 and the body contains `"ok":true`; the message is `HTTP OK` when ok and `HTTP error: ` followed by the code otherwise; code and latency are passed through |
| Checker.DecimalRoundTrip | classes/local/checker.php:56 | the decimal text of any integer code (as PHP's string concatenation writes it) reads back as that integer |
| Checker.MessageRecordsOutcome | classes/local/checker.php:56 | the message is `HTTP OK` iff the probe succeeded; a failure message holds the error prefix and, after it, text that reads back as the status code |
| Checker.Log | classes/local/checker.php:71-78 | exactly one row is appended, with the next id, the current time, status 1 iff ok, and the latency, code and message; the hourly table and lastrun are untouched |
| Checker.LatestOfType | classes/local/checker.php:101-107 | the newest row of a type (timecreated descending, then id descending) is in the log, has that type and is not older than any row of that type; none iff the type has no row |
| Checker.FreshCut | classes/local/checker.php:94-95 | the freshness threshold is now minus 2 * max(1, interval) minutes, so never later than two minutes ago |
| Checker.SampleForSpec | classes/local/checker.php:107-125 | a type with rows gets the newest row's id, time, type, status, latency and code, with fresh = 1 iff its time is not before the threshold; a type without rows gets the id-0, status-0, `no recent samples`, stale placeholder at the current hour boundary; stale is always 1 - fresh |
| Checker.LastSamples | classes/local/checker.php:91-129 | the loop over `http` and `db` fills exactly those two entries, each the sample described by SampleForSpec |
| Checker.SampleFor | classes/local/checker.php:107-125 | the sample is of the requested type, and exactly one of fresh and stale is 1 |
| Checker.SummaryOf | classes/local/checker.php:141-157 | each component is up iff its sample is fresh with status 1; operational iff both are up, partial iff exactly one is, down iff neither is |
| Checker.CurrentSummary | classes/local/checker.php:141-157 | the summary is the one SummaryOf gives for the samples LastSamples builds from the log |
| Checker.CurrentSummaryFromLog | classes/local/checker.php:141-150 | on a well-formed database the current overall status is operational iff both types have an up, fresh newest row, partial iff exactly one has, down iff neither has |
| Checker.ComponentUpIffUpAndFresh | classes/local/checker.php:145-147 | a component counts as up iff the newest row of its type has status 1 and is fresh |
| Checker.OverallFromLog | classes/local/checker.php:134-150 | the overall status stated from the log alone: operational, partial and down each characterised by which types have an up, fresh newest row |
| Checker.MissingTypeIsDown | classes/local/checker.php:119-125 | a type with no log row counts as down, and the overall is then never operational |
| Logs.LatestById | classes/local/logs.php:43 | ORDER BY id DESC LIMIT 1: a row of the log with the largest id; none iff the log is empty |
| Logs.LastLog | classes/local/logs.php:39-57 | false iff the log is empty; otherwise exactly the id, key, status, latency and code of a row whose id is the largest in the log, and stale is always 1 |
| Logs.LastLogIsLastRow | classes/local/logs.php:43 | with auto-increment ids, the newest row by id is the last row appended |
| Logs.AppendedRowIsLatest | classes/local/checker.php:77 | a row appended with an id above all existing ids becomes the page's last log |
| Logs.SplitLines | classes/local/logs.php:71 | splitting on `\r\n`, `\r` or `\n` always gives at least one piece, an empty text included |
| Logs.SplitLinesSpec | classes/local/logs.php:71 | no piece of the split holds a line break |
| Logs.SplitLinesJoin | classes/local/logs.php:71 | joining the pieces with `\n` gives the text with every line break normalised to `\n` (nothing is lost) |
| Logs.Trim | classes/local/logs.php:73 | trim() never lengthens the line |
| Logs.TrimSpec | classes/local/logs.php:73 | trim() yields a contiguous slice of the line from which only leading and trailing whitespace and NUL characters were removed, and it neither starts nor ends with one |
| Logs.TrimKeepsNoBreaks | classes/local/logs.php:73 | trimming a line that holds no line break gives a name without one |
| Logs.KeptLines | classes/local/logs.php:72-77 | the filter keeps at most as many names as there are lines |
| Logs.KeptLinesConcat | classes/local/logs.php:72-77 | the line filter works line by line and keeps the order |
| Logs.KeptLinesShape | classes/local/logs.php:72-77 | every kept module name is trimmed, at least four characters long and free of line breaks |
| Logs.StatusModules | classes/local/logs.php:65-80 | the site name first, then the trimmed lines of at least four characters, in order |
| Logs.ModuleNamesShape | classes/local/logs.php:65-80 | the list starts with the site name and every further entry has at least four characters, neither starts nor ends with whitespace and holds no line break |
| Logs.ClassOf | classes/local/logs.php:138-150 | an hour without a row is `down`; with a row the class is `ok` iff uptime >= 99, `good` iff 95 <= uptime < 99, `warn` iff 80 <= uptime < 95, `bad` iff 0 < uptime < 80, and `down` iff uptime <= 0 |
| Logs.ClassMonotone | classes/local/logs.php:140-150 | a higher uptime never gets a worse colour class |
| Logs.WindowHours | classes/local/logs.php:115-123 | the window is 24 hours per configured day, 120 when the setting is unset, and at least 1 |
| Logs.Bars | classes/local/logs.php:121-158 | the window has exactly `w` bars |
| Logs.BarsCoverWindow | classes/local/logs.php:121-126 | one bar per window hour, oldest first, from `w` hours back to the hour before the current one; bars are hour-aligned and 3600 s apart |
| Logs.BarsShowUptime | classes/local/logs.php:132-155 | a bar for an hour without a row shows 0 and `down`; a bar for an hour with a row shows that row's uptime and its threshold class |
| Logs.Status | classes/local/logs.php:112-163 | the descending loop produces exactly the bars that BarsCoverWindow and BarsShowUptime describe |
| Logs.OverallOf | classes/local/logs.php:92 | the page is operational iff a last log exists with non-zero status, otherwise down; never partial |
| Logs.TitleOf | classes/local/logs.php:97 | the configured public title when it has at least four characters, the plugin name otherwise |
| Logs.Summary | classes/local/logs.php:88-104 | the page context: title, overall from the last log, the last log, the bars and the module list as specified above |
| Logs.OverallFollowsLastRow | classes/local/logs.php:89-92 | the page is operational iff the log is non-empty and its last appended row has non-zero status |
| HourlyRollup.EffectiveInterval | classes/task/hourly_rollup_task.php:52-55 | a non-positive interval setting means 5 minutes; the result is always positive |
| HourlyRollup.ExpectedPings | classes/task/hourly_rollup_task.php:56 | the expected count is the largest number of intervals that fit in 60 minutes |
| HourlyRollup.PreviousHourStart | classes/task/hourly_rollup_task.php:59-60 | hourstart is hour-aligned and now lies in the hour after the one hourstart begins |
| HourlyRollup.OkCount | classes/task/hourly_rollup_task.php:67-74 | the ok count never exceeds the number of log rows |
| HourlyRollup.OkCountIsHourWindow | classes/task/hourly_rollup_task.php:58-74 | with rows keyed by their creation hour, matching the previous hour's key counts exactly the status-1 rows created inside that hour |
| HourlyRollup.RoundedPercent | classes/task/hourly_rollup_task.php:78-82 | uptime lies in [0, 100]; it is 0 when no ping is expected and 100 when ok reaches expected; otherwise it is the nearest integer to 100 * ok / expected |
| HourlyRollup.RoundingBounds | classes/task/hourly_rollup_task.php:80 | the integer quotient used for round() lies within half a unit of 100 * ok / expected, and reaches 100 iff ok reaches expected |
| HourlyRollup.Upserted | classes/task/hourly_rollup_task.php:84-100 | the upsert adds at most one row, and every row afterwards either has the hour's key or is the unchanged row at that position |
| HourlyRollup.UpsertSpec | classes/task/hourly_rollup_task.php:84-100 | afterwards the hour has a row with the uptime; an existing row changes only its uptime and every other row is unchanged; otherwise exactly one row is appended |
| HourlyRollup.UpsertIdempotent | classes/task/hourly_rollup_task.php:84-100 | upserting the same hour and uptime twice equals doing it once |
| HourlyRollup.UpsertCons | classes/task/hourly_rollup_task.php:84-100 | the upsert leaves a leading row of another hour in front, and rewrites a leading row of the same hour in place |
| HourlyRollup.UpsertRetainCommute | classes/task/hourly_rollup_task.php:84-124 | for an hour on or after the cutoff day, purging then upserting equals upserting then purging |
| HourlyRollup.UpsertRetainDropped | classes/task/hourly_rollup_task.php:84-124 | for an hour before the cutoff day, the upserted row is purged and leaves no trace |
| HourlyRollup.OkCountRetain | classes/task/hourly_rollup_task.php:67-74 | purging days before the cutoff does not change the ok count of an hour on or after it |
| HourlyRollup.RetentionDays | classes/task/hourly_rollup_task.php:103-106 | a non-positive retention setting means 30 days; the result is always positive |
| HourlyRollup.CutoffDay | classes/task/hourly_rollup_task.php:103-110 | the cutoff is the UTC day of `now` minus the configured number of days, or minus 30 days when the setting is not positive |
| HourlyRollup.PreviousHourUptime | classes/task/hourly_rollup_task.php:51-82 | the previous hour's key and its uptime, in [0, 100], as UptimeOf defines from the log |
| HourlyRollup.RollupIdempotent | classes/task/hourly_rollup_task.php:49-125 | a second run at the same time with the same settings leaves both tables as the first run left them |
| HourlyRollup.RollupPurgeSpec | classes/task/hourly_rollup_task.php:102-124 | after a run the log holds exactly the old rows of days not before the cutoff; no hourly row before the cutoff day survives; every other hour's row on or after it survives |
| HourlyRollup.CutoffDeleteRejected | classes/task/hourly_rollup_task.php:113-124 | the cutoff WHERE clause binds `cy` three times and `cmo` twice against a three-key parameter array, so Moodle's one-to-one placeholder rule rejects both deletes |
| HourlyRollup.DistinctCutoffDeleteAccepted | classes/task/hourly_rollup_task.php:113-124 | the same clause with one placeholder name per occurrence, each with its own parameter, is accepted |
| HourlyRollup.RollupTablesAsWritten | classes/task/hourly_rollup_task.php:84-124 | as written, a run commits the upsert and then fails at the log delete: the log is unchanged and the hourly table is only upserted |
| HourlyRollup.AsWrittenKeepsExpiredRows | classes/task/hourly_rollup_task.php:112-117 | as written, a log row of a day before the cutoff survives the run, while the intended purge removes it |
| HourlyRollup.Execute | classes/task/hourly_rollup_task.php:49-125 | the run leaves the log and hourly tables as RollupTables describes and keeps the id counter and lastrun |
| HourlyRollup.Upsert | classes/task/hourly_rollup_task.php:84-100 | the read-then-update-or-insert of the hour's row changes only the hourly table, which keeps the database well-formed |
| HourlyRollup.Purge | classes/task/hourly_rollup_task.php:112-124 | the two range deletes keep exactly the rows of days not before the cutoff, and ids stay increasing |
| PingTask.IntervalMinutes | classes/task/ping_task.php:59 | the interval is max(1, setting): the setting when it is at least 1, and 1 when it is below 1 |
| PingTask.Decide | classes/task/ping_task.php:53-67 | disabled iff the plugin is off; skipped iff enabled and lastrun is set and less than one interval has passed; probed otherwise |
| PingTask.Execute | classes/task/ping_task.php:52-76 | when disabled or skipped nothing changes; when probing, lastrun becomes `now` and exactly one row with the classified probe outcome is appended, stamped with the later clock read `logTime`; the hourly table never changes |
| PingTask.SecondRunSkips | classes/task/ping_task.php:64-69 | right after a run that probed, a run at the same non-zero time skips |
| PingTask.RunTwice | classes/task/ping_task.php:52-76 | two runs at the same time append at most one row, and the second skips whenever the first probed |
| PingTask.ProbeDecidesPage | classes/task/ping_task.php:74-75 | after a probing run the public page reads operational iff the probe succeeded |
| PingTask.ProbeRowAsWritten | classes/task/ping_task.php:75 | the row the call as written stores always has status 1 |
| PingTask.AsWrittenPageAlwaysOperational | classes/task/ping_task.php:75 | as written, every probing run leaves the public page operational, whatever the probe answered |
| PingTask.AsWrittenRecordsFailureAsUp | classes/task/ping_task.php:75 | as written, an HTTP 500 answer with latency 12 is stored with status 1, code 12 and message `500` |
| Install.CandidatesSpec | db/install.php:39-40 | the 168 seeded hours are hour-aligned, consecutive, increasing and all before the current hour, from 168 hours back to one hour back |
| Install.Chunks | db/install.php:52 | array_chunk gives non-empty pieces of at most `n` records, all but the last of exactly `n` |
| Install.ChunksFlatten | db/install.php:52-53 | the batches of array_chunk, read in order, are exactly the records in order |
| Install.InsertAbsent | db/install.php:52-66 | the old table is a prefix of the new one, which has at most one added row per record |
| Install.InsertAbsentExtends | db/install.php:61-64 | existing rows are never modified or reordered; every added row is a seed record whose hour had no row before it |
| Install.InsertAbsentCovers | db/install.php:52-66 | afterwards every record's hour has a row |
| Install.InsertAbsentNoop | db/install.php:61-64 | when every record's hour already has a row, nothing is inserted |
| Install.InsertAbsentIdempotent | db/install.php:52-66 | seeding a second time at the same time adds nothing |
| Install.SeedSpec | db/install.php:38-66 | after the install each of the 168 hours has a row; added rows have uptime 100 and the key of a seeded hour; at most 168 rows are added and old rows stay in front |
| Install.BuildRecords | db/install.php:38-49 | the counting loop builds one record per candidate hour, oldest first, each keyed by that hour with uptime 100 |
| Install.InsertAbsentConcat | db/install.php:52-66 | inserting two lists of records one after the other is inserting their concatenation |
| Install.InsertBatch | db/install.php:53-65 | the inner loop inserts each record of a batch, in order, only when its hour has no row yet |
| Install.InsertBatches | db/install.php:52-66 | the batch loop leaves the hourly table as inserting all records one by one, each only when absent; the log and lastrun are untouched |
| Install.SeedHourly | db/install.php:32-66 | the install leaves the hourly table as inserting the 168 seed records one by one, each only when absent; the log and lastrun are untouched |

## Findings

| source | as written | input that shows it | evidently intended | confidence | as-written member | corrected member |
|---|---|---|---|---|---|---|
| classes/task/ping_task.php:75 | `log('http', ok, latency, code, message)` calls a four-parameter `log(bool, int, int, string)`. Under PHP's coercive typing every argument shifts by one: status is always 1, latency is the ok flag, httpcode is the latency, the message is the code and the real message is dropped | a probe answered with HTTP 500 and latency 12 is stored as status 1, httpcode 12, message `500`, and the page reads operational | store the probe's own ok, latency, code and message | high (not executed) | PingTask.AsWrittenRecordsFailureAsUp | PingTask.ProbeDecidesPage |
| classes/task/hourly_rollup_task.php:113-124 | both retention deletes use `:cy` three times and `:cmo` twice with a parameter array of three keys. Moodle's DML layer binds each named placeholder once and raises a `dml_exception` on a repeated name, so the run fails after the upsert and nothing is ever purged | any run where the log holds a row of a day before the cutoff: the row survives (`HourlyRollup.AsWrittenKeepsExpiredRows`) | one placeholder name per occurrence (`:cy1`, `:cy2`, `:cmo2`, ...) so that both deletes run | medium (not executed; rests on Moodle's placeholder rule, which is not part of this model) | HourlyRollup.AsWrittenKeepsExpiredRows | HourlyRollup.RollupPurgeSpec |

The rest of the model uses the corrected behaviour:

- `PingTask.Execute` logs through `Checker.Log` with the probe's own fields.
- `HourlyRollup.Execute` runs both deletes through `HourlyRollup.Purge`, as `HourlyRollup.DistinctCutoffDeleteAccepted` allows.

## Left out

- HourlyRollup.Purge: models both deletes as succeeding, which is the corrected behaviour of the Findings table. Moodle's DML layer is not part of this model; its placeholder rule is stated only as `HourlyRollup.PlaceholdersAccepted`, and what a failed run means for task retries is not modelled.
- Outbound HTTP: the curl request to the health endpoint, the token parameter and the microtime latency. `ClassifyHttp` takes the status code, body and latency as inputs.
- Clock and calendars: `time()` is a parameter. A probing ping run reads the clock twice: `now` is the read for the gate and `lastrun` (classes/task/ping_task.php:60), and `logTime` is the read when the row is stored, after the probe (classes/local/checker.php:74). The two are independent parameters, so the model does not assume `logTime >= now`. The status computation also reads the clock twice, for the freshness threshold (classes/local/checker.php:95) and for a placeholder's hour (classes/local/checker.php:122); the model uses one `now` for both. The conversions `gmdate`/`date` are `Calendar` parameters, and `strtotime`/`userdate` are left out.
  - Properties that need a calendar fact say so in a requires (`HourlyRollup.HourCalendar`).
  - The retention cutoff is the day of `now - days * 86400`, so a daylight-saving shift in `strtotime("-N days")` is not modelled.
- Display formatting: the displayed timestamps of the last log and of each bar (including classes/local/logs.php:152, which reuses the month as minutes) are not modelled. A bar carries its hour-aligned timestamp instead.
- `overall_label`, `get_string` and the language packs are localisation only. settings.php, index.php and health.php are admin UI, page rendering and a static JSON answer, and are not part of this model.
- `mtrace` messages are logging only.
- Overlapping cron runs and database concurrency are not modelled; every operation runs atomically.
- Floating point: the uptime is `round(ok / expected * 100)` computed exactly on rationals, rounding halves up. A binary-float near-half case could round differently in PHP.
- Byte length: `isset($line[3])` and `isset($publictitle[3])` count bytes; the model counts characters.
- Table naming: classes/local/checker.php:94 and :103 read `local_statusboard_log` and the `local_statusboard` config, while the rest of the plugin uses `local_kopere_status`. The model uses one log table and one interval setting for both.
- Log row columns: classes/local/checker.php:71-78 inserts neither a `type` nor the (year, month, day, hour) columns that checker.php and the rollup read. In the model a logged row carries its component and the calendar key of its creation time, which is what those readers assume.
- The `db` component is never probed by the ping task, so the modelled code only ever produces `http` rows.
- Configuration strings: settings are modelled as integers (and a boolean for `enabled`), with 0 for an unset or falsy value. PHP's string-to-number comparisons on non-numeric text are not modelled.
- Multiple hourly rows for one hour: the rollup updates the first one found (`get_record_select` would warn); the model updates the first in table order.
