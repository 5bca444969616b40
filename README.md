# Weather ETL: a Dafny model

This project models the core of a small weather ETL job:

- Every few minutes it fetches current observations for Busan and Seoul from the OpenWeatherMap API.
- It turns them into rows keyed by Korean local date and time.
- It writes the rows to a MySQL table named `daily_weather`.

The model has seven modules, one per concern.

- `Wrappers` (wrappers.dfy): `Option` and `Result`.
- `Frame` (frame.dfy): cells, records and frames as pandas hands them around after `json_normalize`. A missing cell reads as NULL.
- `Calendar` (calendar.dfy): what `pd.to_datetime(unit="s")` and `strftime` do to whole seconds.
  - Seconds become a proleptic Gregorian date and a time of day.
  - Dates and times are rendered as zero-padded `YYYYMMDD` and `HHMMSS`.
  - A parser reads the two strings back, which shows they determine the instant.
- `MySql` (mysql.dfy): the `MySqlClient` class.
  - The database table is state: whether the table exists, and its rows in insertion order.
  - Each method is proved against a specification function (`InsertSpec`, `UpsertSpec`, …).
  - The client logs every statement it sends: CREATE, DROP, DELETE, COMMIT and INSERT.
  - The schema's guarantees are an invariant: known columns, no NULL in NOT NULL or key columns, and no repeated primary key.
- `WeatherApi` (weather_api.dfy): the API client.
  - The client asks an abstract service, one request per city.
  - Only status 200 yields the JSON body.
- `Weather` (weather.dfy): the weather asset.
  - `ExtractWeather` is a loop over the fixed cities.
  - `TransformWeather` covers the new columns it writes into the caller's frame, the selection and the rename.
  - `DailyWeather` is the table definition.
  - `LoadWeather` dispatches on the strategy name.
- `EtlPipeline` (etl_pipeline.dfy): one run of `main`.
  - It validates the settings and builds the missing-variables message.
  - It runs extract, then transform, then load, and stops at the first exception.
  - The catch-all handler is modelled by `RunEtl` returning a report instead of raising.

Behaviour of the code that the model keeps:

- The primary key of `daily_weather` is `(dt, time, id)` (etl_module/assets/weather.py:79-90).
  - Records of different stations at the same instant therefore never replace each other (`Weather.UpsertKeepsOtherStations`).
- `upsert` is not atomic: the DELETE is committed before the append runs (`MySql.UpsertNotAtomic`).
- A record without `dt` is not refused by the transform.
  - It becomes a row with NULL `dt`, `time` and `measured_at`.
  - The upsert's DELETE then fails (`Weather.UpsertRefusesUnknownInstant`).
- The settings check names only settings that are absent. A setting set to the empty string fails the check without being named (`EtlPipeline.EmptySettingUnnamed`).
- `extract_weather` ignores the configured city list.

Modelling decisions:

- The database refuses an append as a whole: pandas' `to_sql` inserts in one transaction.
- `DROP TABLE` needs no COMMIT because MySQL commits DDL implicitly.
- A DELETE whose key tuple holds `None` is refused. `repr(None)` renders as `None`, which is not valid SQL.
- The service (the network) is a function parameter of the API client.
- The environment is a map parameter of the run.

## Model

| member | source | states |
|---|---|---|
| Calendar.DaysInMonth | etl_module/assets/weather.py:40 | a month has 28 to 31 days, and 29 exactly for February of a leap year |
| Calendar.YearOfEra | etl_module/assets/weather.py:40 | splits a day of a 400-year era into a year of the era and a day of that (March-based) year; the two add back up to the day, and only a leap year has a 366th day |
| Calendar.DaysFromCivil | etl_module/assets/weather.py:40 | the days from 1970-01-01 to a date of the proleptic Gregorian calendar pandas uses |
| Calendar.CivilFromDays | etl_module/assets/weather.py:40 | the date of a day count is a valid calendar date, and counting days back from it gives the same count |
| Calendar.MarchDayToMonthDay | etl_module/assets/weather.py:40 | a day of a March-based year is a month index and a day within that month that add back up to it |
| Calendar.DaysFromCivilParts | etl_module/assets/weather.py:40 | the day count of a date is the days of its whole eras, years and months before it plus its day of the month |
| Calendar.LeapDayYear | etl_module/assets/weather.py:40 | a year of an era whose 366th day exists is a Gregorian leap year |
| Calendar.TimeOf | etl_module/assets/weather.py:41 | the time of day of an instant is a valid hour/minute/second, and the start of its day plus its seconds is the instant |
| Calendar.YearOfTimestamp | etl_module/assets/weather.py:37-40 | every instant pandas can represent falls in a year of exactly four digits |
| Calendar.ParseDigitsOfDigits | etl_module/assets/weather.py:40-41 | a zero-padded decimal rendering reads back to the number |
| Calendar.FormatDate | etl_module/assets/weather.py:40 | `%Y%m%d` of an instant is eight decimal digits |
| Calendar.FormatTime | etl_module/assets/weather.py:41 | `%H%M%S` of an instant is six decimal digits |
| Calendar.ParseInstant | etl_module/assets/weather.py:40-41 | reads a `dt` and a `time` string back to the instant they name, refusing strings that name no calendar date or no time of day |
| Calendar.FormatRoundTrip | etl_module/assets/weather.py:40-41 | parsing `dt` and `time` gives back the instant to the second |
| Calendar.FormatInjective | etl_module/assets/weather.py:40-41 | two instants with the same `dt` and `time` are the same instant |
| Calendar.FormatExample | etl_module/assets/weather.py:37-41 | the instant 1700032400 renders as `20231115` and `071320` |
| MySql.KeyColumns | etl_module/connectors/mysql.py:89-91 | the key columns are exactly the names of the primary-key columns, none added |
| MySql.KeyValues | etl_module/connectors/mysql.py:92 | one key tuple per row of the batch, in row order, each the row's cells in the key columns |
| MySql.AppendCheck | etl_module/connectors/mysql.py:72 | the database refuses an append iff some row carries a column the table lacks, holds NULL in a NOT NULL column, or repeats a key stored or earlier in the batch; an unknown column fails the whole INSERT, otherwise the first refused row names the error |
| MySql.FirstRowError | etl_module/connectors/mysql.py:72 | the rows are stored one at a time: the first row with a NULL in a NOT NULL column, or else with a key already stored, decides the error |
| MySql.AppendAcceptable | etl_module/connectors/mysql.py:72 | what the schema demands of appended rows: known columns, no NULL where refused, no key met twice |
| MySql.FirstRowErrorNone | etl_module/connectors/mysql.py:72 | row by row nothing is refused iff no row has such a NULL, no row's key is stored and no key repeats in the batch |
| MySql.FirstRowDecides | etl_module/connectors/mysql.py:72 | a first row that repeats a stored key is reported as a duplicate, whatever the later rows hold |
| MySql.AppendSpec | etl_module/connectors/mysql.py:72 | `to_sql` with `if_exists="append"`: an empty frame sends nothing; otherwise one INSERT that adds every row after the stored ones, or none when refused |
| MySql.AppendRefused | etl_module/connectors/mysql.py:72 | a refused append has sent its one INSERT and left the table as it was |
| MySql.UpsertSpec | etl_module/connectors/mysql.py:74-109 | `upsert`: CREATE IF ABSENT; a missing key column raises; an empty batch stops there; a key tuple that cannot be spelled makes the DELETE raise; otherwise DELETE the batch's keys, COMMIT, and append the batch to the survivors |
| MySql.CreateTableSpec | etl_module/connectors/mysql.py:43-50 | afterwards the table exists; an existing table is left as it was, a new one is empty |
| MySql.DropTableSpec | etl_module/connectors/mysql.py:52-60 | afterwards there is no table and no row, whether or not there was one |
| MySql.InsertSpec | etl_module/connectors/mysql.py:62-72 | the table exists; the insert succeeds iff the batch is empty or the database accepts it after the stored rows; then the rows are the old rows followed by the batch, otherwise the old rows |
| MySql.Survivors | etl_module/connectors/mysql.py:97-106 | the DELETE keeps exactly the stored rows whose key is not among the batch's keys |
| MySql.AllRenderable | etl_module/connectors/mysql.py:93-95 | the DELETE can be spelled iff every key tuple can be |
| MySql.BatchRenderable | etl_module/connectors/mysql.py:92-95 | the DELETE can be spelled iff every batch row's key tuple can be |
| MySql.BatchDeleted | etl_module/connectors/mysql.py:97-106 | no row equal to a batch row survives the DELETE |
| MySql.SurvivorsConcat | etl_module/connectors/mysql.py:97-106 | the DELETE filters each part of the stored rows on its own |
| MySql.KeysDistinctConcat | etl_module/connectors/mysql.py:72 | two lists with distinct keys, none shared, have distinct keys together |
| MySql.UpsertAppendPath | etl_module/connectors/mysql.py:83-109 | a non-empty batch with its key columns and spellable keys is upserted as CREATE, DELETE, COMMIT on the survivors, then the append |
| MySql.UpsertAcceptedKeys | etl_module/connectors/mysql.py:83-109 | on that path the upsert succeeds iff the batch has known columns, filled NOT NULL columns and distinct keys, and then the table is the survivors followed by the batch |
| MySql.UpsertRepeat | etl_module/connectors/mysql.py:97-109 | a second upsert of a batch whose DELETE can be written, into a table the first produced and that leaves the same survivors, repeats the first upsert exactly |
| MySql.OverwriteSpec | etl_module/connectors/mysql.py:111-127 | the table exists; it succeeds iff the batch alone is acceptable; then the table holds exactly the batch, otherwise nothing |
| MySql.CreateTableIdempotent | etl_module/connectors/mysql.py:43-50 | creating twice is creating once |
| MySql.InsertTwiceFails | etl_module/connectors/mysql.py:62-72 | inserting a batch that already went in fails on a duplicate key and changes nothing |
| MySql.UpsertRejectsNullKey | etl_module/connectors/mysql.py:92-105 | a batch row with NULL in a key column, or without a key column the batch has, makes the upsert raise with the table created and nothing deleted |
| MySql.UpsertOutcome | etl_module/connectors/mysql.py:74-109 | the upsert succeeds iff the batch has the key columns, spellable keys, no duplicate key and acceptable cells; then the table is the stored rows whose key is not in the batch, in order, followed by the batch |
| MySql.UpsertEmptyBatch | etl_module/connectors/mysql.py:97-109 | an empty batch sends no DELETE and no INSERT and changes no row |
| MySql.UpsertNotAtomic | etl_module/connectors/mysql.py:105-109 | when the append is refused after the DELETE, the deleted rows stay deleted, no batch row is stored, and DELETE, COMMIT and INSERT were all sent |
| MySql.UpsertIdempotent | etl_module/connectors/mysql.py:97-109 | upserting any batch a second time gives the same table, outcome and statements as the first time, whether the first went in, was refused after its committed DELETE, or raised before it |
| MySql.UpsertKeepsUnnamed | etl_module/connectors/mysql.py:97-109 | a stored row whose key the batch does not name is still stored after the upsert, whatever its outcome |
| MySql.AppendKeepsInvariant | etl_module/connectors/mysql.py:72 | an append keeps known columns, filled NOT NULL columns and distinct keys |
| MySql.SurvivorsKeepInvariant | etl_module/connectors/mysql.py:97-106 | the rows a DELETE leaves keep the schema's guarantees |
| MySql.InsertKeepsInvariant | etl_module/connectors/mysql.py:62-72 | `insert` keeps the schema's guarantees |
| MySql.UpsertKeepsInvariant | etl_module/connectors/mysql.py:74-109 | `upsert` never leaves two rows with one key, a NULL in a NOT NULL column or an unknown column |
| MySql.OverwriteKeepsInvariant | etl_module/connectors/mysql.py:111-127 | after `overwrite` the table satisfies the schema's guarantees whatever it held before |
| MySql.OverwriteForgetsPast | etl_module/connectors/mysql.py:120-127 | the effect of `overwrite` does not depend on what the table held |
| MySql.MySqlClient.constructor | etl_module/connectors/mysql.py:15-41 | a new client sees the database's table as it is (an absent table has no rows) and has sent nothing |
| MySql.MySqlClient.CreateTable | etl_module/connectors/mysql.py:43-50 | changes the table as `CreateTableSpec` says and sends one CREATE IF ABSENT |
| MySql.MySqlClient.DropTable | etl_module/connectors/mysql.py:52-60 | changes the table as `DropTableSpec` says and sends one DROP IF EXISTS |
| MySql.MySqlClient.Append | etl_module/connectors/mysql.py:72 | appends the batch all-or-nothing and sends one INSERT, or nothing for an empty batch |
| MySql.MySqlClient.Insert | etl_module/connectors/mysql.py:62-72 | leaves the table, outcome and statements `InsertSpec` gives |
| MySql.MySqlClient.Upsert | etl_module/connectors/mysql.py:74-109 | leaves the table, outcome and statements `UpsertSpec` gives |
| MySql.MySqlClient.Overwrite | etl_module/connectors/mysql.py:111-127 | leaves the table, outcome and statements `OverwriteSpec` gives |
| WeatherApi.FetchResult | etl_module/connectors/weather_api.py:32-37 | a response yields its body iff its status is 200, otherwise an error with its status and text |
| WeatherApi.WeatherApiClient.constructor | etl_module/connectors/weather_api.py:9-13 | a new client keeps its key and service and has requested nothing |
| WeatherApi.WeatherApiClient.GetCity | etl_module/connectors/weather_api.py:15-37 | sends one request for the city and returns what `FetchResult` makes of the answer |
| Weather.FirstRefused | etl_module/assets/weather.py:21-22 | every city before the index was served with status 200, and the city at the index was not |
| Weather.ExtractionRequests | etl_module/assets/weather.py:19-22 | the cities requested are Busan and Seoul, or Busan alone, and Busan alone exactly when Busan is refused |
| Weather.Extraction | etl_module/assets/weather.py:7-24 | the result of `extract_weather`: the bodies of Busan and Seoul in that order when both are served, otherwise the status and text of the first refusal |
| Weather.ExtractWeather | etl_module/assets/weather.py:7-24 | whatever `cities` says, requests Busan then Seoul up to the first refusal; returns both bodies in that order, or the first refusal's status and text |
| Weather.ToDatetime | etl_module/assets/weather.py:37 | `to_datetime(unit="s")` of one cell: a missing cell is NaT, whole seconds in the datetime64[ns] range become that instant, a value out of range is out of bounds, anything else is unsupported |
| Weather.ShiftToKst | etl_module/assets/weather.py:37-39 | adding nine hours moves an instant 32400 seconds on, fails when that leaves the datetime64[ns] range, and keeps NaT |
| Weather.MeasuredAt | etl_module/assets/weather.py:37-39 | a convertible `dt` cell becomes NaT or an instant in range |
| Weather.FirstFailure | etl_module/assets/weather.py:37 | no failure is reported iff every cell converted |
| Weather.MeasuredAtColumn | etl_module/assets/weather.py:37-39 | the conversion succeeds iff every `dt` cell is missing or whole seconds representable with and without the nine hours; then each `measured_at` is `dt` plus 32400 seconds, and a missing `dt` gives NaT; a failure is an unsupported or out-of-bounds timestamp |
| Frame.AbsentColumns | etl_module/assets/weather.py:42-53 | no column is reported missing iff every selected column is in the frame |
| Frame.AbsentColumnsMembers | etl_module/assets/weather.py:42-53 | the columns reported missing are exactly the selected columns the frame lacks |
| Weather.TransformReportsMissing | etl_module/assets/weather.py:42-53 | once `dt` has converted, the only way the transform fails is the selection, and it names exactly the fetched columns the frame lacks, at least one |
| Weather.TransformKeepsLength | etl_module/assets/weather.py:37-62 | a successful transform has as many rows as the frame it was given |
| Weather.DailyWeatherColumns | etl_module/assets/weather.py:79-90 | the columns of `daily_weather` are exactly the eight columns the transform selects |
| Weather.Augment | etl_module/assets/weather.py:37-41 | a record after the three assignments: `measured_at` is `dt` plus nine hours, `dt` its `%Y%m%d` and `time` its `%H%M%S`, all three NULL when `dt` is missing; other columns unchanged |
| Weather.Project | etl_module/assets/weather.py:42-61 | the selected row: `dt`, `time`, `measured_at`, `id`, and `name`, `main.temp`, `main.humidity`, `wind.speed` under their new names, missing cells as NULL |
| Weather.TransformWeather | etl_module/assets/weather.py:27-62 | `transform_weather`: a frame without `dt` raises; a `dt` that does not convert raises with the frame untouched; otherwise the frame is augmented in place, and the selection either raises naming the missing fetched columns or returns one projected row per record |
| Weather.TransformSucceeds | etl_module/assets/weather.py:37-62 | rows come back iff the frame has `dt`, every `dt` converts, and every selected fetched column is present |
| Weather.TransformedRow | etl_module/assets/weather.py:37-62 | an output row has exactly the eight output columns, the renamed fields of its record, and `measured_at`, `dt` and `time` from `dt` plus nine hours (all NULL when `dt` is missing) |
| Weather.ProjectColumns | etl_module/assets/weather.py:42-53 | the selection keeps exactly the eight output columns |
| Weather.ProjectRenames | etl_module/assets/weather.py:42-61 | `city`, `temperature`, `humidity` and `wind_speed` hold `name`, `main.temp`, `main.humidity` and `wind.speed` |
| Weather.TransformedRows | etl_module/assets/weather.py:37-62 | one output row per fetched record, in the same order |
| Weather.TransformMutatesCallerFrame | etl_module/assets/weather.py:37-41 | the caller's frame is unchanged when `dt` is missing or does not convert, and otherwise has the three new columns written into every record, even when the selection then raises |
| Weather.AugmentedRow | etl_module/assets/weather.py:37-41 | the three assignments set `measured_at`, `dt` and `time` and leave every other column of the record as it was |
| Weather.DailyWeatherKey | etl_module/assets/weather.py:79-90 | the primary key of `daily_weather` is `(dt, time, id)` |
| Weather.TransformedColumnsFitTable | etl_module/assets/weather.py:42-62 | every column the transform produces is a column of `daily_weather`, and every column of the table is produced |
| Weather.TransformedKey | etl_module/assets/weather.py:79-90 | a transformed row's key is its Korean date, its Korean time and its station id |
| Weather.KeyIdentifiesObservation | etl_module/assets/weather.py:79-90 | two transformed rows share a key iff they have the same station and the same instant, a missing instant counting as one value |
| Weather.UpsertRefusesUnknownInstant | etl_module/assets/weather.py:37-41 | a record without `dt` makes the upsert raise before anything is deleted |
| Weather.UpsertKeepsOtherStations | etl_module/assets/weather.py:79-90 | a stored row of a station absent from the batch survives the upsert, whether or not it succeeds |
| Weather.TransformExample | etl_module/assets/weather.py:37-41 | `dt` 1700000000 becomes `measured_at` 1700032400, `dt` `20231115` and `time` `071320` |
| Weather.ParseMethod | etl_module/assets/weather.py:91-98 | `insert`, `upsert` and `overwrite` select their strategy, and every other name selects none |
| Weather.LoadWeather | etl_module/assets/weather.py:65-98 | an unknown method raises and leaves the client untouched; `insert`, `upsert` and `overwrite` each leave the client's table and statements as that strategy's effect on `daily_weather` says, and pass its error on; the method defaults to `upsert` |
| EtlPipeline.AllSet | etl_module/pipeline/etl_pipeline.py:45-47 | the `all([...])` guard: every setting is present and not empty |
| EtlPipeline.Unset | etl_module/pipeline/etl_pipeline.py:49-60 | lists exactly the names not in the environment, in their order |
| EtlPipeline.MissingVars | etl_module/pipeline/etl_pipeline.py:49-60 | names exactly the six settings that are absent, in the fixed order, and nothing iff all six are present |
| EtlPipeline.MissingVarsMessage | etl_module/pipeline/etl_pipeline.py:61 | the message starts with `누락된 환경 변수: ` and is only that when no name is given |
| EtlPipeline.Join | etl_module/pipeline/etl_pipeline.py:61 | `", ".join`: the parts in order with a comma and a space between neighbours |
| EtlPipeline.FirstComma | etl_module/pipeline/etl_pipeline.py:61 | finds the first separator of a joined list |
| EtlPipeline.SplitJoin | etl_module/pipeline/etl_pipeline.py:61 | splitting a `", "`-join of plain names gives the names back |
| EtlPipeline.MessageNamesMissingVars | etl_module/pipeline/etl_pipeline.py:49-61 | reading the message back gives exactly the missing settings, in order |
| EtlPipeline.EmptySettingUnnamed | etl_module/pipeline/etl_pipeline.py:45-61 | with every setting present but one empty, the check fails, no setting is named and the message is the bare prefix |
| EtlPipeline.OnlyPortUnset | etl_module/pipeline/etl_pipeline.py:45-61 | with only `DB_PORT` absent, the message is `누락된 환경 변수: DB_PORT` |
| EtlPipeline.RequiredVarsPlain | etl_module/pipeline/etl_pipeline.py:49-58 | no setting name is empty or holds a comma |
| EtlPipeline.UnsetOnlyLast | etl_module/pipeline/etl_pipeline.py:49-60 | when only the last name is absent, the list of missing names is that name alone |
| EtlPipeline.RunSpec | etl_module/pipeline/etl_pipeline.py:36-99 | a run: a missing or empty setting logs the message and touches nothing; otherwise the extract stage follows |
| EtlPipeline.ExtractStage | etl_module/pipeline/etl_pipeline.py:80-86 | a refused city ends the run with the cities requested so far, the refused one included, and nothing sent to the database; otherwise the transform stage follows |
| EtlPipeline.TransformStage | etl_module/pipeline/etl_pipeline.py:88-92 | a transform error ends the run with nothing sent to the database; otherwise the load stage follows |
| EtlPipeline.LoadStage | etl_module/pipeline/etl_pipeline.py:94-96 | the load upserts into `daily_weather`; the table and statements are the upsert's, and the last milestone is reached iff it succeeds |
| EtlPipeline.RunEtl | etl_module/pipeline/etl_pipeline.py:36-99 | one run returns normally with the report, table and statements `RunSpec` gives |
| EtlPipeline.TransformAndLoad | etl_module/pipeline/etl_pipeline.py:88-96 | after the extract, the transform and the load leave the report, table and statements `TransformStage` gives |
| EtlPipeline.TransformStageInOrder | etl_module/pipeline/etl_pipeline.py:88-96 | from the transform on, the milestones stay a prefix of the run's order, and all are reached iff nothing was logged |
| EtlPipeline.LoadStageInOrder | etl_module/pipeline/etl_pipeline.py:94-96 | the load adds its milestone iff it does not raise |
| EtlPipeline.StagesInOrder | etl_module/pipeline/etl_pipeline.py:65-96 | the milestones reached are a prefix of environment, clients, extract, transform, load, and all are reached iff no exception was logged |
| EtlPipeline.ConfigFailureTouchesNothing | etl_module/pipeline/etl_pipeline.py:45-63 | with a setting absent or empty, the run logs the missing-settings message, makes no request and sends nothing to the database |
| EtlPipeline.EarlyFailureTouchesNoTable | etl_module/pipeline/etl_pipeline.py:81-95 | when extract or transform raises, nothing is sent to the database |
| EtlPipeline.ScheduledLoadUpserts | etl_module/pipeline/etl_pipeline.py:95 | a run that reaches the load upserts the two transformed rows into `daily_weather` after requesting Busan and Seoul |

## Left out

- Logging, the log-file name, `load_dotenv`, YAML loading, `os.makedirs` and the scheduler loop (etl_module/pipeline/etl_pipeline.py:29-34, 102-119). They are I/O and wall-clock plumbing. The run's milestones stand in for the log lines.
- The HTTP request itself and the OpenWeatherMap URL. The service is an abstract function from city name to response.
- `WeatherApiClient` raising on a `None` API key. The run checks the settings before it builds the client, so the key passed is never absent.
- Key comparison by collation. Keys here match only when their values are equal, whereas MySQL compares strings under the column's collation, case-insensitively by default. For `daily_weather` this makes no difference: its key is two digit strings and an integer id.
- SQLAlchemy engine and URL construction, connection failures, the SQL text, and `repr` quoting beyond `None`.
- MySql.MySqlClient.constructor: never raises. In the source, building the client passes `DB_PORT` to `URL.create` (etl_module/connectors/mysql.py:31-38), which raises for a port that is not an integer; `main` would log that error before any request (etl_module/pipeline/etl_pipeline.py:70-76, 98-99). The model's run instead goes on to request Busan and Seoul and upsert, because settings are opaque strings here and the URL is not modelled.
- `json_normalize` flattening of nested JSON. Records arrive already flattened, with dotted column names.
- Column types and lengths (`String(8)`, `Integer`, `Float`) and the database's type checks.
- Floating-point values. Temperature and wind speed are carried as opaque bit patterns.
- ToDatetime: a `dt` that is not whole seconds is an error. pandas would accept a float `dt`; the fetched `dt` is always an integer.
- MySql.MySqlClient: tracks one table per client. `load_weather` only ever touches `daily_weather`.
- The scheduler's interval and overlapping runs. Each run is modelled on its own.
