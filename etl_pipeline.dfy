/**
 * One scheduled run of the ETL pipeline: read the six settings from the
 * environment, build the two clients, then extract, transform and load in
 * this order. Any exception ends the run at the stage that raised; it is
 * logged and `main` returns normally.
 */
module EtlPipeline {
  import opened Wrappers
  import opened Frame
  import opened MySql
  import opened WeatherApi
  import opened Weather

  // ---------------------------------------------------------- configuration

  /** `os.environ` after `load_dotenv()`: a variable that is not set has no entry. */
  type Environment = map<string, string>

  /** The settings `main` reads, in the order it checks and reports them. */
  const RequiredVars: seq<string> := ["API_KEY", "DB_SERVER_HOST", "DB_USERNAME", "DB_PASSWORD", "DB_DATABASE", "DB_PORT"]

  /** `all([...])`: every setting is there and, as a Python string, truthy (not empty). */
  predicate AllSet(env: Environment) {
    forall v :: v in RequiredVars ==> v in env && env[v] != ""
  }

  /** `sub` is `names` with some elements left out, the rest in their order. */
  predicate SubsequenceOf(sub: seq<string>, names: seq<string>) {
    if sub == [] then true
    else if names == [] then false
    else (sub[0] == names[0] && SubsequenceOf(sub[1..], names[1..])) || SubsequenceOf(sub, names[1..])
  }

  /** The names of `names` that `os.environ.get` answers None for, in order. */
  function Unset(env: Environment, names: seq<string>): (r: seq<string>)
    ensures forall v :: v in r <==> v in names && v !in env
    ensures r == [] <==> forall i :: 0 <= i < |names| ==> names[i] in env
    ensures SubsequenceOf(r, names)
  {
    if names == [] then []
    else if names[0] in env then
      var rest := Unset(env, names[1..]);
      assert SubsequenceOf(rest, names) by { SkipHead(rest, names); }
      rest
    else [names[0]] + Unset(env, names[1..])
  }

  /** A subsequence of the tail is a subsequence of the whole. */
  lemma SkipHead(sub: seq<string>, names: seq<string>)
    requires names != [] && SubsequenceOf(sub, names[1..])
    ensures SubsequenceOf(sub, names)
  {
  }

  /** The settings that are not set at all, in the order of `RequiredVars` (etl_pipeline.py, lines 49-60). */
  function MissingVars(env: Environment): (r: seq<string>)
    ensures forall v :: v in r <==> v in RequiredVars && v !in env
    ensures r == [] <==> forall i :: 0 <= i < |RequiredVars| ==> RequiredVars[i] in env
    ensures SubsequenceOf(r, RequiredVars)
  {
    Unset(env, RequiredVars)
  }

  /** `", ".join(parts)`. */
  function Join(parts: seq<string>): string {
    if parts == [] then ""
    else if |parts| == 1 then parts[0]
    else parts[0] + ", " + Join(parts[1..])
  }

  const MissingVarsPrefix: string := "누락된 환경 변수: "

  /** The message of the ValueError `main` raises for missing settings (etl_pipeline.py, line 61). */
  function MissingVarsMessage(missing: seq<string>): (m: string)
    ensures |m| >= |MissingVarsPrefix| && m[..|MissingVarsPrefix|] == MissingVarsPrefix
    ensures missing == [] ==> m == MissingVarsPrefix
  {
    MissingVarsPrefix + Join(missing)
  }

  /** The index of the first comma of `s`, or `|s|`. */
  function FirstComma(s: string): (n: nat)
    ensures n <= |s|
    ensures forall i :: 0 <= i < n ==> s[i] != ','
    ensures n < |s| ==> s[n] == ','
  {
    if s == [] || s[0] == ',' then 0 else 1 + FirstComma(s[1..])
  }

  /** Reads a `", "`-joined list back: the inverse of `Join` on non-empty, comma-free names. */
  function Split(s: string): seq<string>
    decreases |s|
  {
    var n := FirstComma(s);
    if n == |s| then [s]
    else if n + 2 <= |s| then [s[..n]] + Split(s[n + 2..])
    else [s[..n], ""]
  }

  /** A name that `Join` cannot blur with its neighbours. */
  predicate PlainName(v: string) {
    |v| > 0 && forall i :: 0 <= i < |v| ==> v[i] != ','
  }

  lemma {:induction false} SplitJoin(parts: seq<string>)
    requires |parts| > 0
    requires forall i :: 0 <= i < |parts| ==> PlainName(parts[i])
    ensures Split(Join(parts)) == parts
  {
    var s := Join(parts);
    if |parts| == 1 {
      assert FirstComma(s) == |s|;
    } else {
      var p := parts[0];
      var rest := Join(parts[1..]);
      assert s == p + ", " + rest;
      assert s[..|p|] == p;
      assert forall i :: 0 <= i < |p| ==> s[i] != ',';
      assert s[|p|] == ',';
      assert FirstComma(s) == |p|;
      assert s[|p| + 2..] == rest;
      SplitJoin(parts[1..]);
      assert Split(s) == [p] + parts[1..];
    }
  }

  /** Recovers the list of names from a missing-settings message. */
  function ParseMissingVarsMessage(m: string): Option<seq<string>> {
    if |m| >= |MissingVarsPrefix| && m[..|MissingVarsPrefix|] == MissingVarsPrefix then
      var rest := m[|MissingVarsPrefix|..];
      Some(if rest == "" then [] else Split(rest))
    else None
  }

  /** The message names exactly the unset settings, in order: reading it back gives `MissingVars`. */
  lemma MessageNamesMissingVars(env: Environment)
    ensures ParseMissingVarsMessage(MissingVarsMessage(MissingVars(env))) == Some(MissingVars(env))
  {
    var missing := MissingVars(env);
    var m := MissingVarsMessage(missing);
    assert m[|MissingVarsPrefix|..] == Join(missing);
    if missing != [] {
      RequiredVarsPlain();
      forall i | 0 <= i < |missing| ensures PlainName(missing[i]) {
        assert missing[i] in RequiredVars;
      }
      SplitJoin(missing);
      assert Join(missing) != "" by {
        assert PlainName(missing[0]);
        JoinStartsWith(missing);
      }
    }
  }

  /** No setting name is empty or holds a comma. */
  lemma RequiredVarsPlain()
    ensures forall v :: v in RequiredVars ==> PlainName(v)
  {
    forall i | 0 <= i < |RequiredVars| ensures PlainName(RequiredVars[i]) {
    }
  }

  /** `Join` begins with its first part. */
  lemma JoinStartsWith(parts: seq<string>)
    requires |parts| > 0
    ensures |Join(parts)| >= |parts[0]| && Join(parts)[..|parts[0]|] == parts[0]
  {
  }

  /**
   * The truthiness quirk of etl_pipeline.py, lines 45-60: a setting that is present but empty
   * fails the `all(...)` guard, yet only `None` values are listed, so when no
   * setting is absent the error names none of them.
   */
  lemma EmptySettingUnnamed(env: Environment)
    requires forall v :: v in RequiredVars ==> v in env
    requires exists v :: v in RequiredVars && env[v] == ""
    ensures !AllSet(env)
    ensures MissingVars(env) == []
    ensures MissingVarsMessage(MissingVars(env)) == MissingVarsPrefix
  {
  }

  /** An unset `DB_PORT` alone is reported as `누락된 환경 변수: DB_PORT`. */
  lemma OnlyPortUnset(env: Environment)
    requires forall v :: v in RequiredVars && v != "DB_PORT" ==> v in env
    requires "DB_PORT" !in env
    ensures MissingVars(env) == ["DB_PORT"]
    ensures MissingVarsMessage(MissingVars(env)) == "누락된 환경 변수: DB_PORT"
  {
    var names := RequiredVars;
    forall i | 0 <= i < |names| - 1 ensures names[i] in env {
      assert names[i] in RequiredVars;
    }
    UnsetOnlyLast(env, names);
    PortMessage();
  }

  lemma PortMessage()
    ensures MissingVarsMessage(["DB_PORT"]) == "누락된 환경 변수: DB_PORT"
  {
  }

  /** When every name but the last is set and the last is not, only the last is reported. */
  lemma {:induction false} UnsetOnlyLast(env: Environment, names: seq<string>)
    requires names != [] && names[|names| - 1] !in env
    requires forall i :: 0 <= i < |names| - 1 ==> names[i] in env
    ensures Unset(env, names) == [names[|names| - 1]]
  {
    if |names| > 1 {
      UnsetOnlyLast(env, names[1..]);
    }
  }

  // -------------------------------------------------------------------- run

  /** The `logger.info` milestones of `main`, in the order they are reached. */
  datatype Stage =
    | EnvironmentLoaded
    | ApiClientReady
    | DbClientReady
    | Extracted(records: nat)
    | Cleaned(rows: nat)
    | Loaded

  /** The exception `main` catches and logs. */
  datatype RunError =
    | ConfigError(message: string)
    | SourceError(refusal: ApiError)
    | TransformFailed(cause: TransformError)
    | LoadFailed(failure: LoadError)

  /** What a run leaves behind outside the database: its milestones, the logged error, the cities requested. */
  datatype RunReport = RunReport(stages: seq<Stage>, error: Option<RunError>, requests: seq<string>)

  /** A run: its report, and the table and statements the database sees. */
  datatype Run = Run(report: RunReport, table: TableState, statements: seq<Statement>)

  /** Every milestone of a run that succeeds with `n` records and `m` rows. */
  function AllStages(n: nat, m: nat): seq<Stage> {
    [EnvironmentLoaded, ApiClientReady, DbClientReady, Extracted(n), Cleaned(m), Loaded]
  }

  /** The milestones logged once both clients exist. */
  const Ready: seq<Stage> := [EnvironmentLoaded, ApiClientReady, DbClientReady]

  /** `main(config)` with the scheduler's defaults: the load always upserts. */
  function RunSpec(env: Environment, service: string -> Response, s: TableState): Run {
    if !AllSet(env) then Run(RunReport([], Some(ConfigError(MissingVarsMessage(MissingVars(env)))), []), s, [])
    else ExtractStage(service, s)
  }

  /** The run from `extract_weather` on. */
  function ExtractStage(service: string -> Response, s: TableState): Run {
    match Extraction(service)
    case Failure(e) => Run(RunReport(Ready, Some(SourceError(e)), ExtractionRequests(service)), s, [])
    case Success(records) => TransformStage(records, ExtractionRequests(service), s)
  }

  /** The run from `transform_weather` on. */
  function TransformStage(records: seq<Record>, requests: seq<string>, s: TableState): Run {
    var stages := Ready + [Extracted(|records|)];
    match TransformWeather(records).result
    case Failure(e) => Run(RunReport(stages, Some(TransformFailed(e)), requests), s, [])
    case Success(rows) => LoadStage(stages + [Cleaned(|rows|)], rows, requests, s)
  }

  /** The run's `load_weather` with its default method, `upsert`. */
  function LoadStage(stages: seq<Stage>, rows: seq<Record>, requests: seq<string>, s: TableState): Run {
    var e := UpsertSpec(s, rows, DailyWeather);
    if e.outcome == Ok then Run(RunReport(stages + [Loaded], None, requests), e.state, e.statements)
    else Run(RunReport(stages, Some(LoadFailed(SinkFailed(e.outcome.error))), requests), e.state, e.statements)
  }

  /**
   * One run of `main` (etl_pipeline.py, lines 36-99). The `cities` of the configuration reach
   * `extract_weather`, which ignores them; `db` is the client's database.
   */
  method RunEtl(cities: seq<string>, env: Environment, service: string -> Response, db: MySqlClient)
    returns (report: RunReport)
    modifies db
    ensures var run := RunSpec(env, service, old(db.State()));
      && report == run.report
      && db.State() == run.table
      && db.statements == old(db.statements) + run.statements
  {
    if !AllSet(env) {
      var message := MissingVarsMessage(MissingVars(env));
      return RunReport([], Some(ConfigError(message)), []);
    }
    ghost var s0 := db.State();
    assert RunSpec(env, service, s0) == ExtractStage(service, s0);
    var stages := [EnvironmentLoaded];
    var api := new WeatherApiClient(env["API_KEY"], service);
    stages := stages + [ApiClientReady];
    stages := stages + [DbClientReady];
    assert stages == Ready;
    var extracted := ExtractWeather(api, cities);
    if extracted.Failure? {
      return RunReport(stages, Some(SourceError(extracted.error)), api.requested);
    }
    var df := extracted.value;
    assert ExtractStage(service, s0) == TransformStage(df, api.requested, s0);
    stages := stages + [Extracted(|df|)];
    report := TransformAndLoad(df, stages, api.requested, db);
  }

  /** The rest of the run once the frame is extracted: transform it, then load it with the default method. */
  method TransformAndLoad(df: seq<Record>, stages: seq<Stage>, requests: seq<string>, db: MySqlClient)
    returns (report: RunReport)
    requires stages == Ready + [Extracted(|df|)]
    modifies db
    ensures var run := TransformStage(df, requests, old(db.State()));
      && report == run.report
      && db.State() == run.table
      && db.statements == old(db.statements) + run.statements
  {
    ghost var s0 := db.State();
    var reached := stages;
    var transformed := TransformWeather(df);
    if transformed.result.Failure? {
      return RunReport(reached, Some(TransformFailed(transformed.result.error)), requests);
    }
    var cleanDf := transformed.result.value;
    reached := reached + [Cleaned(|cleanDf|)];
    assert TransformStage(df, requests, s0) == LoadStage(reached, cleanDf, requests, s0);
    var loaded := LoadWeather(cleanDf, db);
    if loaded.Failure? {
      return RunReport(reached, Some(LoadFailed(loaded.error)), requests);
    }
    reached := reached + [Loaded];
    return RunReport(reached, None, requests);
  }

  /**
   * The milestones of a run are a prefix of the fixed order, and the run
   * reaches the last one exactly when nothing was raised.
   */
  lemma StagesInOrder(env: Environment, service: string -> Response, s: TableState)
    ensures var r := RunSpec(env, service, s).report;
      && (exists n: nat, m: nat {:trigger AllStages(n, m)} :: r.stages <= AllStages(n, m))
      && (r.error == None <==> |r.stages| == 6)
  {
    var r := RunSpec(env, service, s).report;
    if AllSet(env) && Extraction(service).Success? {
      var records := Extraction(service).value;
      TransformStageInOrder(records, ExtractionRequests(service), s);
    } else {
      assert r.stages <= AllStages(0, 0);
    }
  }

  /** `StagesInOrder` from the transform on. */
  lemma TransformStageInOrder(records: seq<Record>, requests: seq<string>, s: TableState)
    ensures var r := TransformStage(records, requests, s).report;
      && (exists m: nat {:trigger AllStages(|records|, m)} :: r.stages <= AllStages(|records|, m))
      && (r.error == None <==> |r.stages| == 6)
  {
    var t := TransformWeather(records).result;
    var stages := Ready + [Extracted(|records|)];
    if t.Success? {
      LoadStageInOrder(stages + [Cleaned(|t.value|)], t.value, requests, s, |records|, |t.value|);
    } else {
      assert stages <= AllStages(|records|, 0);
    }
  }

  /** `StagesInOrder` for the load. */
  lemma LoadStageInOrder(stages: seq<Stage>, rows: seq<Record>, requests: seq<string>, s: TableState, n: nat, m: nat)
    requires stages == Ready + [Extracted(n), Cleaned(m)]
    ensures var r := LoadStage(stages, rows, requests, s).report;
      && r.stages <= AllStages(n, m)
      && (r.error == None <==> |r.stages| == 6)
  {
    assert stages + [Loaded] == AllStages(n, m);
  }

  /** A run with a setting missing or empty makes no request and leaves the database alone. */
  lemma ConfigFailureTouchesNothing(env: Environment, service: string -> Response, s: TableState)
    requires !AllSet(env)
    ensures var run := RunSpec(env, service, s);
      && run.report.error == Some(ConfigError(MissingVarsMessage(MissingVars(env))))
      && run.report.requests == [] && run.table == s && run.statements == []
  {
  }

  /**
   * A run whose extract or transform raises sends nothing to the database:
   * the table is not even created.
   */
  lemma EarlyFailureTouchesNoTable(env: Environment, service: string -> Response, s: TableState)
    requires AllSet(env)
    requires Extraction(service).Failure? || TransformWeather(Extraction(service).value).result.Failure?
    ensures var run := RunSpec(env, service, s);
      && run.report.error.Some? && !run.report.error.value.LoadFailed?
      && run.table == s && run.statements == []
  {
  }

  /** A scheduled run that gets as far as loading upserts the transformed rows into `daily_weather`. */
  lemma ScheduledLoadUpserts(env: Environment, service: string -> Response, s: TableState, rows: seq<Record>)
    requires AllSet(env) && Extraction(service).Success?
    requires TransformWeather(Extraction(service).value).result == Success(rows)
    ensures var run := RunSpec(env, service, s);
      && run.table == UpsertSpec(s, rows, DailyWeather).state
      && run.statements == UpsertSpec(s, rows, DailyWeather).statements
      && run.report.requests == ExtractedCities
      && |rows| == 2
  {
    TransformKeepsLength(Extraction(service).value);
  }
}
