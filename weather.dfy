/**
 * The weather asset: `extract_weather` fetches one record per city,
 * `transform_weather` turns the records into rows of the `daily_weather`
 * table, and `load_weather` hands the rows to the sink with the chosen
 * strategy.
 */
module Weather {
  import opened Wrappers
  import opened Frame
  import opened Calendar
  import opened MySql
  import opened WeatherApi

  // ---------------------------------------------------------------- extract

  /** The cities `extract_weather` fetches, in this order, whatever `cities` it is given. */
  const ExtractedCities: seq<string> := ["Busan", "Seoul"]

  /** The index of the first city the service refuses, or `|cities|` when it serves them all. */
  function FirstRefused(service: string -> Response, cities: seq<string>): (n: nat)
    ensures n <= |cities|
    ensures forall j :: 0 <= j < n ==> service(cities[j]).statusCode == 200
    ensures n < |cities| ==> service(cities[n]).statusCode != 200
  {
    if cities == [] || service(cities[0]).statusCode != 200 then 0
    else 1 + FirstRefused(service, cities[1..])
  }

  /** What `extract_weather` returns: every body in city order, or the first refusal. */
  function Extraction(service: string -> Response): Result<seq<Record>, ApiError> {
    var n := FirstRefused(service, ExtractedCities);
    if n == |ExtractedCities| then
      Success(seq(|ExtractedCities|, i requires 0 <= i < |ExtractedCities| => service(ExtractedCities[i]).body))
    else
      Failure(ApiError(service(ExtractedCities[n]).statusCode, service(ExtractedCities[n]).text))
  }

  /** The cities `extract_weather` requests: up to and including the first refused one. */
  function ExtractionRequests(service: string -> Response): (r: seq<string>)
    ensures r == ExtractedCities || r == ExtractedCities[..1]
    ensures r == ExtractedCities[..1] <==> service(ExtractedCities[0]).statusCode != 200
  {
    var n := FirstRefused(service, ExtractedCities);
    assert ExtractedCities[..1] == ["Busan"];
    ExtractedCities[..if n < |ExtractedCities| then n + 1 else n]
  }

  /**
   * `extract_weather`: the `cities` argument is overwritten with Busan and
   * Seoul; one request per city, in order, and the first refusal raises.
   */
  method ExtractWeather(api: WeatherApiClient, cities: seq<string>) returns (r: Result<seq<Record>, ApiError>)
    modifies api
    ensures r == Extraction(api.service)
    ensures api.requested == old(api.requested) + ExtractionRequests(api.service)
  {
    var names := ExtractedCities;
    var weatherData: seq<Record> := [];
    var i := 0;
    while i < |names|
      invariant 0 <= i <= |names|
      invariant api.requested == old(api.requested) + names[..i]
      invariant forall j :: 0 <= j < i ==> api.service(names[j]).statusCode == 200
      invariant |weatherData| == i
      invariant forall j :: 0 <= j < i ==> weatherData[j] == api.service(names[j]).body
    {
      var fetched := api.GetCity(names[i]);
      match fetched
      case Failure(e) =>
        assert FirstRefused(api.service, names) == i;
        assert names[..i + 1] == names[..i] + [names[i]];
        return Failure(e);
      case Success(record) =>
        assert names[..i + 1] == names[..i] + [names[i]];
        weatherData := weatherData + [record];
      i := i + 1;
    }
    assert names[..i] == names;
    assert FirstRefused(api.service, names) == |names|;
    assert weatherData == seq(|names|, j requires 0 <= j < |names| => api.service(names[j]).body);
    return Success(weatherData);
  }

  // -------------------------------------------------------------- transform

  /** Korea Standard Time is nine hours ahead of the UTC that `dt` counts in. */
  const KstOffsetSeconds := 9 * 3600

  datatype TransformError =
    | MissingColumns(columns: seq<string>)  // KeyError: the frame has none of these columns
    | UnsupportedTimestamp                  // a `dt` cell that is neither whole seconds nor missing
    | OutOfBoundsTimestamp                  // the instant, or the instant nine hours on, is past datetime64[ns]

  /** `pd.to_datetime(cell, unit="s")` for one cell; a missing cell is NaT. */
  function ToDatetime(cell: Value): Result<Value, TransformError> {
    match cell
    case Null => Success(Null)
    case Int(e) => if InTimestampRange(e) then Success(Timestamp(e)) else Failure(OutOfBoundsTimestamp)
    case _ => Failure(UnsupportedTimestamp)
  }

  /** `+ pd.Timedelta(hours=9)` for one cell; NaT stays NaT. */
  function ShiftToKst(stamp: Value): Result<Value, TransformError> {
    if stamp.Timestamp? then
      if InTimestampRange(stamp.seconds + KstOffsetSeconds) then Success(Timestamp(stamp.seconds + KstOffsetSeconds))
      else Failure(OutOfBoundsTimestamp)
    else Success(stamp)
  }

  /** The error of the first failed cell, if any. */
  function FirstFailure(cells: seq<Result<Value, TransformError>>): (r: Option<TransformError>)
    ensures r == None <==> forall i :: 0 <= i < |cells| ==> cells[i].Success?
    ensures r.Some? ==> exists i :: 0 <= i < |cells| && cells[i] == Failure(r.value)
  {
    if cells == [] then None
    else if cells[0].Failure? then Some(cells[0].error)
    else FirstFailure(cells[1..])
  }

  /** A `dt` cell `transform_weather` accepts: missing, or whole seconds that stay representable nine hours on. */
  predicate ConvertibleDt(cell: Value) {
    cell == Null || (cell.Int? && InTimestampRange(cell.i) && InTimestampRange(cell.i + KstOffsetSeconds))
  }

  /** The `measured_at` of a row whose `dt` cell is convertible. */
  function MeasuredAt(cell: Value): (v: Value)
    requires ConvertibleDt(cell)
    ensures StampCell(v)
  {
    if cell.Int? then Timestamp(cell.i + KstOffsetSeconds) else Null
  }

  /** A `measured_at` cell: NaT, or a representable timestamp. */
  predicate StampCell(v: Value) {
    v == Null || (v.Timestamp? && InTimestampRange(v.seconds))
  }

  /** `measured_at` (weather.py, line 37) is `dt` read as seconds since the epoch, plus nine hours. */
  function MeasuredAtColumn(frame: seq<Record>): (r: Result<seq<Value>, TransformError>)
    ensures r.Success? <==> forall i :: 0 <= i < |frame| ==> ConvertibleDt(Cell(frame[i], "dt"))
    ensures r.Success? ==> |r.value| == |frame|
    ensures r.Success? ==> forall i :: 0 <= i < |frame| ==> r.value[i] == MeasuredAt(Cell(frame[i], "dt"))
    ensures r.Failure? ==> r.error == UnsupportedTimestamp || r.error == OutOfBoundsTimestamp
  {
    var converted := seq(|frame|, i requires 0 <= i < |frame| => ToDatetime(Cell(frame[i], "dt")));
    if FirstFailure(converted).Some? then Failure(FirstFailure(converted).value)
    else
      var shifted := seq(|frame|, i requires 0 <= i < |frame| => ShiftToKst(converted[i].value));
      if FirstFailure(shifted).Some? then
        assert exists i :: 0 <= i < |frame| && !ConvertibleDt(Cell(frame[i], "dt")) by {
          var i :| 0 <= i < |frame| && shifted[i].Failure?;
        }
        Failure(FirstFailure(shifted).value)
      else
        assert forall i :: 0 <= i < |frame| ==> ConvertibleDt(Cell(frame[i], "dt")) by {
          forall i | 0 <= i < |frame| ensures ConvertibleDt(Cell(frame[i], "dt")) {
            assert converted[i].Success? && shifted[i].Success?;
          }
        }
        Success(seq(|frame|, i requires 0 <= i < |frame| => shifted[i].value))
  }

  /** `strftime("%Y%m%d")` of a `measured_at` cell; NaT renders as NaN. */
  function DateCell(stamp: Value): Value
    requires StampCell(stamp)
  {
    if stamp.Timestamp? then Text(FormatDate(stamp.seconds)) else Null
  }

  /** `strftime("%H%M%S")` of a `measured_at` cell. */
  function TimeCell(stamp: Value): Value
    requires StampCell(stamp)
  {
    if stamp.Timestamp? then Text(FormatTime(stamp.seconds)) else Null
  }

  /** One record of the caller's frame after the three assignments of weather.py, lines 37-41. */
  function Augment(row: Record): Record
    requires ConvertibleDt(Cell(row, "dt"))
  {
    var stamp := MeasuredAt(Cell(row, "dt"));
    row["measured_at" := stamp]["dt" := DateCell(stamp)]["time" := TimeCell(stamp)]
  }

  /** The fetched columns the selection reads besides the three it derived. */
  const RawSelected: seq<string> := ["id", "name", "main.temp", "main.humidity", "wind.speed"]

  /** The columns of the result, in order, after the rename. */
  const OutputColumns: seq<string> := ["dt", "time", "measured_at", "id", "city", "temperature", "humidity", "wind_speed"]

  /** The selection and rename of weather.py, lines 42-61: eight columns, the fetched ones renamed. */
  function Project(row: Record): Record {
    map[
      "dt" := Cell(row, "dt"),
      "time" := Cell(row, "time"),
      "measured_at" := Cell(row, "measured_at"),
      "id" := Cell(row, "id"),
      "city" := Cell(row, "name"),
      "temperature" := Cell(row, "main.temp"),
      "humidity" := Cell(row, "main.humidity"),
      "wind_speed" := Cell(row, "wind.speed")
    ]
  }

  /** The caller's frame after the call, and the returned rows or the exception. */
  datatype Transformed = Transformed(frame: seq<Record>, result: Result<seq<Record>, TransformError>)

  /**
   * `transform_weather`: reading `df["dt"]` raises when the frame has no `dt`
   * column; converting it raises on a cell it cannot read; then the three
   * derived columns are written into the caller's frame, and only after that
   * does the selection raise when a fetched column is missing.
   */
  function TransformWeather(frame: seq<Record>): Transformed {
    if !HasColumn(frame, "dt") then Transformed(frame, Failure(MissingColumns(["dt"])))
    else if MeasuredAtColumn(frame).Failure? then Transformed(frame, Failure(MeasuredAtColumn(frame).error))
    else
      var mutated := seq(|frame|, i requires 0 <= i < |frame| => Augment(frame[i]));
      var missing := AbsentColumns(frame, RawSelected);
      if missing != [] then Transformed(mutated, Failure(MissingColumns(missing)))
      else Transformed(mutated, Success(seq(|frame|, i requires 0 <= i < |frame| => Project(mutated[i]))))
  }

  /** `transform_weather` returns rows exactly when `dt` is there and readable and every fetched column it selects is there. */
  lemma TransformSucceeds(frame: seq<Record>)
    ensures TransformWeather(frame).result.Success? <==>
              && HasColumn(frame, "dt")
              && (forall i :: 0 <= i < |frame| ==> ConvertibleDt(Cell(frame[i], "dt")))
              && (forall c :: c in RawSelected ==> HasColumn(frame, c))
  {
  }

  /** Once `dt` is converted, a selection that raises names exactly the fetched columns the frame lacks. */
  lemma TransformReportsMissing(frame: seq<Record>)
    requires HasColumn(frame, "dt") && MeasuredAtColumn(frame).Success?
    ensures var t := TransformWeather(frame);
      t.result.Failure? ==>
        && t.result.error.MissingColumns?
        && t.result.error.columns != []
        && forall c :: c in t.result.error.columns <==> c in RawSelected && !HasColumn(frame, c)
  {
    AbsentColumnsMembers(frame, RawSelected);
  }

  /** What one record becomes: the fields the source names, and no other column. */
  lemma TransformedRow(row: Record)
    requires ConvertibleDt(Cell(row, "dt"))
    ensures var out := Project(Augment(row));
      && (forall c :: c in out <==> c in OutputColumns)
      && out["id"] == Cell(row, "id")
      && out["city"] == Cell(row, "name")
      && out["temperature"] == Cell(row, "main.temp")
      && out["humidity"] == Cell(row, "main.humidity")
      && out["wind_speed"] == Cell(row, "wind.speed")
      && (Cell(row, "dt") == Null ==> out["measured_at"] == Null && out["dt"] == Null && out["time"] == Null)
      && (Cell(row, "dt").Int? ==>
            var m := Cell(row, "dt").i + KstOffsetSeconds;
            && InTimestampRange(m)
            && out["measured_at"] == Timestamp(m)
            && out["dt"] == Text(FormatDate(m))
            && out["time"] == Text(FormatTime(m)))
  {
    var aug := Augment(row);
    AugmentedRow(row);
    ProjectColumns(aug);
    ProjectRenames(aug);
    assert Cell(aug, "id") == Cell(row, "id");
    assert Cell(aug, "name") == Cell(row, "name");
    assert Cell(aug, "main.temp") == Cell(row, "main.temp");
    assert Cell(aug, "main.humidity") == Cell(row, "main.humidity");
    assert Cell(aug, "wind.speed") == Cell(row, "wind.speed");
  }

  /** The selection keeps exactly the eight output columns. */
  lemma ProjectColumns(row: Record)
    ensures forall c :: c in Project(row) <==> c in OutputColumns
  {
    assert Project(row).Keys == {"dt", "time", "measured_at", "id", "city", "temperature", "humidity", "wind_speed"};
  }

  /** The rename: each output column holds the input column it was selected from. */
  lemma ProjectRenames(row: Record)
    ensures var out := Project(row);
      && out["dt"] == Cell(row, "dt") && out["time"] == Cell(row, "time")
      && out["measured_at"] == Cell(row, "measured_at") && out["id"] == Cell(row, "id")
      && out["city"] == Cell(row, "name") && out["temperature"] == Cell(row, "main.temp")
      && out["humidity"] == Cell(row, "main.humidity") && out["wind_speed"] == Cell(row, "wind.speed")
  {
  }

  /** The result has one row per fetched record, in the same order, each as `TransformedRow` describes. */
  lemma TransformedRows(frame: seq<Record>)
    requires TransformWeather(frame).result.Success?
    ensures var rows := TransformWeather(frame).result.value;
      && |rows| == |frame|
      && forall i :: 0 <= i < |frame| ==> ConvertibleDt(Cell(frame[i], "dt")) && rows[i] == Project(Augment(frame[i]))
  {
  }

  /** A transformation that succeeds returns one row per fetched record. */
  lemma TransformKeepsLength(frame: seq<Record>)
    ensures TransformWeather(frame).result.Success? ==> |TransformWeather(frame).result.value| == |frame|
  {
  }

  /**
   * The assignments of weather.py, lines 37-41, write into the caller's frame:
   * once `dt` has been converted, every record gains (or has replaced)
   * `measured_at`, `dt` and `time`, even
   * when the selection that follows raises; its other columns are untouched.
   * When reading or converting `dt` raises, the frame is unchanged.
   */
  lemma TransformMutatesCallerFrame(frame: seq<Record>)
    ensures var t := TransformWeather(frame);
      && |t.frame| == |frame|
      && (!HasColumn(frame, "dt") ==> t.frame == frame)
      && (t.result.Failure? && !t.result.error.MissingColumns? ==> t.frame == frame)
      && (HasColumn(frame, "dt") && (forall i :: 0 <= i < |frame| ==> ConvertibleDt(Cell(frame[i], "dt"))) ==>
            forall i :: 0 <= i < |frame| ==> t.frame[i] == Augment(frame[i]))
  {
    if HasColumn(frame, "dt") && MeasuredAtColumn(frame).Success? {
      assert TransformWeather(frame).frame == seq(|frame|, i requires 0 <= i < |frame| => Augment(frame[i]));
    }
  }

  /** One record of the caller's frame: three columns set, every other column as it was. */
  lemma AugmentedRow(row: Record)
    requires ConvertibleDt(Cell(row, "dt"))
    ensures var out := Augment(row);
      && "measured_at" in out && "dt" in out && "time" in out
      && out["measured_at"] == MeasuredAt(Cell(row, "dt"))
      && out["dt"] == DateCell(MeasuredAt(Cell(row, "dt")))
      && out["time"] == TimeCell(MeasuredAt(Cell(row, "dt")))
      && forall c :: c != "measured_at" && c != "dt" && c != "time" ==>
           (c in out <==> c in row) && Cell(out, c) == Cell(row, c)
  {
  }

  // ------------------------------------------------------------------- load

  /**
   * The `daily_weather` table of `load_weather`. `id` is declared without
   * `nullable`, which SQLAlchemy then takes as NOT NULL because it is part of
   * the primary key `(dt, time, id)`.
   */
  const DailyWeather: TableDef := TableDef("daily_weather", [
    Column("dt", false, true),
    Column("time", false, true),
    Column("measured_at", false, false),
    Column("id", false, true),
    Column("city", true, false),
    Column("temperature", true, false),
    Column("humidity", true, false),
    Column("wind_speed", true, false)
  ])

  /** The primary key of `daily_weather` is `(dt, time, id)`, in this order. */
  lemma DailyWeatherKey()
    ensures KeyColumns(DailyWeather.columns) == ["dt", "time", "id"]
  {
  }

  /** Every column `transform_weather` produces is a column of `daily_weather`, and conversely. */
  lemma TransformedColumnsFitTable(frame: seq<Record>)
    requires TransformWeather(frame).result.Success?
    ensures ColumnsKnown(TransformWeather(frame).result.value, DailyWeather)
    ensures forall c :: c in ColumnNames(DailyWeather) <==> c in OutputColumns
  {
    DailyWeatherColumns();
    TransformedRows(frame);
    var rows := TransformWeather(frame).result.value;
    forall i | 0 <= i < |rows| ensures rows[i].Keys <= ColumnNames(DailyWeather) {
      ProjectColumns(Augment(frame[i]));
    }
  }

  /** `daily_weather` declares exactly the eight columns the transformation outputs. */
  lemma DailyWeatherColumns()
    ensures forall c :: c in ColumnNames(DailyWeather) <==> c in OutputColumns
  {
    forall c | c in OutputColumns ensures c in ColumnNames(DailyWeather) {
      assert DailyWeather.columns[OutputIndex(c)] in DailyWeather.columns;
    }
  }

  /** Where an output column is declared in `daily_weather`. */
  function OutputIndex(c: string): (k: nat)
    requires c in OutputColumns
    ensures k < |DailyWeather.columns| && DailyWeather.columns[k].name == c
  {
    if c == "dt" then 0 else if c == "time" then 1 else if c == "measured_at" then 2
    else if c == "id" then 3 else if c == "city" then 4 else if c == "temperature" then 5
    else if c == "humidity" then 6 else 7
  }

  /** The `daily_weather` key of a transformed record: its date and time in Korea, and its station. */
  lemma TransformedKey(row: Record)
    requires ConvertibleDt(Cell(row, "dt"))
    ensures var stamp := MeasuredAt(Cell(row, "dt"));
      KeyOf(Project(Augment(row)), KeyColumns(DailyWeather.columns)) == [DateCell(stamp), TimeCell(stamp), Cell(row, "id")]
  {
    var aug := Augment(row);
    var out := Project(aug);
    var stamp := MeasuredAt(Cell(row, "dt"));
    AugmentedRow(row);
    ProjectColumns(aug);
    ProjectRenames(aug);
    assert Cell(aug, "id") == Cell(row, "id");
    assert Cell(out, "dt") == DateCell(stamp);
    assert Cell(out, "time") == TimeCell(stamp);
    assert Cell(out, "id") == Cell(row, "id");
    var kc := KeyColumns(DailyWeather.columns);
    DailyWeatherKey();
    KeyOfDaily(out, kc);
  }

  /** A key over `(dt, time, id)` lists those three cells. */
  lemma KeyOfDaily(out: Record, kc: seq<string>)
    requires kc == ["dt", "time", "id"]
    ensures KeyOf(out, kc) == [Cell(out, "dt"), Cell(out, "time"), Cell(out, "id")]
  {
  }

  /**
   * Two transformed rows have the same `daily_weather` key exactly when they
   * are the same station at the same instant, or the same station with no
   * instant at all.
   */
  lemma KeyIdentifiesObservation(frame: seq<Record>, i: int, j: int)
    requires TransformWeather(frame).result.Success?
    requires 0 <= i < |frame| && 0 <= j < |frame|
    ensures var rows := TransformWeather(frame).result.value;
      KeyOf(rows[i], KeyColumns(DailyWeather.columns)) == KeyOf(rows[j], KeyColumns(DailyWeather.columns))
      <==> Cell(frame[i], "dt") == Cell(frame[j], "dt") && Cell(frame[i], "id") == Cell(frame[j], "id")
  {
    TransformedRows(frame);
    TransformedKey(frame[i]);
    TransformedKey(frame[j]);
    if Cell(frame[i], "dt").Int? && Cell(frame[j], "dt").Int? {
      var mi, mj := Cell(frame[i], "dt").i + KstOffsetSeconds, Cell(frame[j], "dt").i + KstOffsetSeconds;
      var ki := [Text(FormatDate(mi)), Text(FormatTime(mi)), Cell(frame[i], "id")];
      var kj := [Text(FormatDate(mj)), Text(FormatTime(mj)), Cell(frame[j], "id")];
      if ki == kj {
        assert ki[0] == kj[0] && ki[1] == kj[1];
        FormatInjective(mi, mj);
      }
    }
  }

  /**
   * A record fetched without `dt` reaches the sink with NULL key cells: the
   * upsert's DELETE cannot be written and the call raises after creating the table.
   */
  lemma UpsertRefusesUnknownInstant(s: TableState, frame: seq<Record>, i: int)
    requires TransformWeather(frame).result.Success?
    requires 0 <= i < |frame| && Cell(frame[i], "dt") == Null
    ensures var e := UpsertSpec(s, TransformWeather(frame).result.value, DailyWeather);
      e.outcome == Err(DeleteRejected) && e.state == CreateTableSpec(s)
  {
    var rows := TransformWeather(frame).result.value;
    TransformedRows(frame);
    TransformedRow(frame[i]);
    assert "dt" in rows[i] && rows[i]["dt"] == Null;
    DailyWeatherKey();
    forall k | k in KeyColumns(DailyWeather.columns) ensures HasColumn(rows, k) {
      assert k in rows[i];
    }
    assert "dt" in KeyColumns(DailyWeather.columns) && Cell(rows[i], "dt") == Null;
    UpsertRejectsNullKey(s, rows, DailyWeather, i);
  }

  /**
   * Under `(dt, time, id)` a stored observation of a station that is not in
   * the batch is never deleted by an upsert, even at the same instant, and
   * whether or not the upsert succeeds.
   */
  lemma UpsertKeepsOtherStations(s: TableState, frame: seq<Record>, x: Record)
    requires TransformWeather(frame).result.Success?
    requires x in CreateTableSpec(s).rows
    requires forall i :: 0 <= i < |frame| ==> Cell(x, "id") != Cell(frame[i], "id")
    ensures x in UpsertSpec(s, TransformWeather(frame).result.value, DailyWeather).state.rows
  {
    var rows := TransformWeather(frame).result.value;
    var kc := KeyColumns(DailyWeather.columns);
    TransformedRows(frame);
    DailyWeatherKey();
    var keys := KeyValues(rows, kc);
    forall i | 0 <= i < |keys| ensures KeyOf(x, kc) != keys[i] {
      TransformedKey(frame[i]);
      assert keys[i][2] == Cell(frame[i], "id");
      assert KeyOf(x, kc)[2] == Cell(x, "id");
    }
    UpsertKeepsUnnamed(s, rows, DailyWeather, x);
  }

  /** A record stamped 1700000000 seconds after the epoch is stored under 2023-11-15, 07:13:20 in Korea. */
  lemma TransformExample(row: Record)
    requires Cell(row, "dt") == Int(1700000000)
    ensures Project(Augment(row))["dt"] == Text("20231115")
    ensures Project(Augment(row))["time"] == Text("071320")
    ensures Project(Augment(row))["measured_at"] == Timestamp(1700032400)
  {
    TransformedRow(row);
    FormatExample();
  }

  /** The strategies `load_weather` accepts. */
  datatype Strategy = Insert | Upsert | Overwrite

  /** The `method` of `load_weather` when none is given. */
  const DefaultMethod: string := "upsert"

  /** The `if`/`elif` chain of `load_weather` on `method`. */
  function ParseMethod(name: string): (r: Option<Strategy>)
    ensures r == Some(Insert) <==> name == "insert"
    ensures r == Some(Upsert) <==> name == "upsert"
    ensures r == Some(Overwrite) <==> name == "overwrite"
    ensures r == None <==> name != "insert" && name != "upsert" && name != "overwrite"
  {
    if name == "insert" then Some(Insert)
    else if name == "upsert" then Some(Upsert)
    else if name == "overwrite" then Some(Overwrite)
    else None
  }

  datatype LoadError =
    | UnknownMethod              // the exception for a method name other than the three strategies
    | SinkFailed(error: SinkError)

  /** The client and the result after a load whose effect is `e`, starting from the statement log `log`. */
  predicate LoadedWith(e: Effect, log: seq<Statement>, client: MySqlClient, r: Result<(), LoadError>)
    reads client
  {
    && client.State() == e.state
    && client.statements == log + e.statements
    && (e.outcome == Ok ==> r == Success(()))
    && (e.outcome.Err? ==> r == Failure(SinkFailed(e.outcome.error)))
  }

  /**
   * `load_weather`: runs the named strategy against `daily_weather`; an
   * unknown name raises before the client is touched.
   */
  method LoadWeather(df: seq<Record>, client: MySqlClient, loadMethod: string := DefaultMethod)
    returns (r: Result<(), LoadError>)
    modifies client
    ensures ParseMethod(loadMethod) == None ==>
              && r == Failure(UnknownMethod)
              && client.State() == old(client.State()) && client.statements == old(client.statements)
    ensures loadMethod == "insert" ==> LoadedWith(InsertSpec(old(client.State()), df, DailyWeather), old(client.statements), client, r)
    ensures loadMethod == "upsert" ==> LoadedWith(UpsertSpec(old(client.State()), df, DailyWeather), old(client.statements), client, r)
    ensures loadMethod == "overwrite" ==> LoadedWith(OverwriteSpec(old(client.State()), df, DailyWeather), old(client.statements), client, r)
  {
    var outcome: Outcome;
    match ParseMethod(loadMethod) {
      case None =>
        return Failure(UnknownMethod);
      case Some(Insert) =>
        outcome := client.Insert(df, DailyWeather);
      case Some(Upsert) =>
        outcome := client.Upsert(df, DailyWeather);
      case Some(Overwrite) =>
        outcome := client.Overwrite(df, DailyWeather);
    }
    r := if outcome == Ok then Success(()) else Failure(SinkFailed(outcome.error));
  }
}
