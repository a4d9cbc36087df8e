/** The service's health checks. Each check either succeeds or fails with a
    list of health problems, each a string `source|message` naming the
    subsystem at fault. The probes themselves (reading the configuration, a
    `SELECT 1` against Postgres, `getServiceProperties` on the Azure Storage
    services, an HTTP `HEAD`) are parameters: a probe is the outcome it ends
    with, including the synchronous throws the source lets through. */
module HealthCheck {
  import opened Wrappers
  import opened JsString
  import opened Js
  import opened IoTs

  /** The subsystems a problem can be attributed to. */
  datatype ProblemSource = PostgresDB | AzureStorage | Config | Url
  {
    /** The tag the problem string starts with. */
    function Name(): string
    {
      match this
      case PostgresDB => "PostgresDB"
      case AzureStorage => "AzureStorage"
      case Config => "Config"
      case Url => "Url"
    }
  }

  /** A problem string, tagged with its source. */
  type HealthProblem = string

  /** A health check's outcome: the problems found, or the success value. */
  type HealthResult<T> = Either<seq<HealthProblem>, T>

  /** The subset of the application configuration the checks read. */
  datatype AppConfig = AppConfig(postgresReadOnlyUri: string)

  /** The Azure Storage services probed, in the order they are probed. */
  datatype StorageService = BlobService | FileService | QueueService | TableService

  function StorageServices(): seq<StorageService>
  {
    [BlobService, FileService, QueueService, TableService]
  }

  // ---------------------------------------------------------------------------
  // Problem strings
  // ---------------------------------------------------------------------------

  /** A problem as its source and message. */
  datatype ParsedProblem = ParsedProblem(source: ProblemSource, message: string)

  /** `${source}|${message}`. */
  function FormatProblem(source: ProblemSource, message: string): (r: HealthProblem)
    ensures |r| == |source.Name()| + 1 + |message|
    ensures r[..|source.Name()|] == source.Name() && r[|source.Name()|] == '|'
    ensures r[|source.Name()| + 1..] == message
  {
    source.Name() + "|" + message
  }

  /** A formatted problem holds every character of its message. */
  lemma FormatProblemKeepsChar(source: ProblemSource, message: string, c: char)
    requires c in message
    ensures c in FormatProblem(source, message)
  {
    var k :| 0 <= k < |message| && message[k] == c;
    assert FormatProblem(source, message)[|source.Name()| + 1..][k] == c;
  }

  /** The first index of `c` in `s`, if any. */
  function IndexOf(s: string, c: char): (r: Option<nat>)
    ensures r.None? <==> c !in s
    ensures r.Some? ==> r.value < |s| && s[r.value] == c && c !in s[..r.value]
  {
    if |s| == 0 then None
    else if s[0] == c then Some(0)
    else
      match IndexOf(s[1..], c)
      case None => None
      case Some(i) =>
        assert s[..i + 1] == [s[0]] + s[1..][..i];
        Some(i + 1)
  }

  /** The source a tag names, if any. */
  function SourceNamed(name: string): (r: Option<ProblemSource>)
    ensures r.Some? ==> r.value.Name() == name
  {
    match name
    case "PostgresDB" => Some(PostgresDB)
    case "AzureStorage" => Some(AzureStorage)
    case "Config" => Some(Config)
    case "Url" => Some(Url)
    case _ => None
  }

  /** Reading a problem string back: the tag before the first `|` and the
      message after it. */
  function ParseProblem(p: HealthProblem): Option<ParsedProblem>
  {
    match IndexOf(p, '|')
    case None => None
    case Some(i) =>
      match SourceNamed(p[..i])
      case None => None
      case Some(source) => Some(ParsedProblem(source, p[i + 1..]))
  }

  lemma SourceNamedName(source: ProblemSource)
    ensures SourceNamed(source.Name()) == Some(source)
    ensures '|' !in source.Name() && '\n' !in source.Name()
  {
  }

  /** The separator is found right after a prefix that does not hold it. */
  lemma {:induction false} IndexOfAfterPrefix(a: string, c: char, b: string)
    requires c !in a
    ensures IndexOf(a + [c] + b, c) == Some(|a|)
  {
    if |a| > 0 {
      assert (a + [c] + b)[1..] == a[1..] + [c] + b;
      IndexOfAfterPrefix(a[1..], c, b);
    }
  }

  /** A formatted problem reads back as its source and message, whatever the
      message holds (a `|` in the message included). */
  lemma ParseFormatProblem(source: ProblemSource, message: string)
    ensures ParseProblem(FormatProblem(source, message)) == Some(ParsedProblem(source, message))
  {
    SourceNamedName(source);
    assert FormatProblem(source, message) == source.Name() + ['|'] + message;
    IndexOfAfterPrefix(source.Name(), '|', message);
  }

  /** Every string that reads as a problem is the formatting of what it reads as. */
  lemma FormatParseProblem(p: HealthProblem)
    requires ParseProblem(p).Some?
    ensures FormatProblem(ParseProblem(p).value.source, ParseProblem(p).value.message) == p
  {
    var i := IndexOf(p, '|').value;
    assert p == p[..i] + "|" + p[i + 1..];
  }

  /** Problems of different sources or messages are different strings. */
  lemma FormatProblemInjective(s1: ProblemSource, m1: string, s2: ProblemSource, m2: string)
    requires FormatProblem(s1, m1) == FormatProblem(s2, m2)
    ensures s1 == s2 && m1 == m2
  {
    ParseFormatProblem(s1, m1);
    ParseFormatProblem(s2, m2);
  }

  /** A problem string attributed to `source`. */
  predicate IsProblemOf(p: HealthProblem, source: ProblemSource)
  {
    ParseProblem(p).Some? && ParseProblem(p).value.source == source
  }

  /** `toHealthProblems(source)(e)`: exactly one problem, attributed to
      `source`, whose message is `toError(e).message`. */
  function ToHealthProblems(source: ProblemSource, e: Thrown): (r: seq<HealthProblem>)
    ensures |r| == 1
    ensures ParseProblem(r[0]) == Some(ParsedProblem(source, ErrorMessage(e)))
  {
    ParseFormatProblem(source, ErrorMessage(e));
    [FormatProblem(source, ErrorMessage(e))]
  }

  // ---------------------------------------------------------------------------
  // Sequencing
  // ---------------------------------------------------------------------------

  /** `array.sequence(taskEither)`: all the values, in order, when every
      check succeeds; otherwise the problems of the first check that failed. */
  function SequenceResults<T>(results: seq<HealthResult<T>>): (r: HealthResult<seq<T>>)
    ensures r.Right? <==> forall k :: 0 <= k < |results| ==> results[k].Right?
    ensures r.Right? ==> |r.right| == |results|
    ensures r.Right? ==> forall k :: 0 <= k < |results| ==> r.right[k] == results[k].right
    ensures r.Left? ==> exists k :: (0 <= k < |results| && results[k].Left? && r.left == results[k].left
      && forall j :: 0 <= j < k ==> results[j].Right?)
  {
    if |results| == 0 then Right([])
    else
      var rest := SequenceResults(results[1..]);
      match results[0]
      case Left(problems) => Left(problems)
      case Right(x) =>
        match rest
        case Left(problems) =>
          ghost var k :| 0 <= k < |results[1..]| && results[1..][k].Left? && problems == results[1..][k].left
            && forall j :: 0 <= j < k ==> results[1..][j].Right?;
          assert results[k + 1].Left? && forall j :: 0 <= j < k + 1 ==> results[j].Right?;
          Left(problems)
        case Right(xs) => Right([x] + xs)
  }

  // ---------------------------------------------------------------------------
  // The checks
  // ---------------------------------------------------------------------------

  /** `checkConfigHealth`: the configuration when it reads; otherwise one
      `Config` problem per decoding error, in order, each holding the readable
      report of that error alone. */
  function CheckConfigHealth(config: Either<Errors, AppConfig>, readableReport: Errors -> string)
    : (r: HealthResult<AppConfig>)
    ensures config.Right? ==> r == Right(config.right)
    ensures config.Left? ==> r.Left? && |r.left| == |config.left|
    ensures config.Left? ==> forall k :: 0 <= k < |config.left| ==>
      ParseProblem(r.left[k]) == Some(ParsedProblem(Config, readableReport([config.left[k]])))
  {
    match config
    case Right(c) => Right(c)
    case Left(errors) =>
      var problems := seq(|errors|, k requires 0 <= k < |errors| => FormatProblem(Config, readableReport([errors[k]])));
      assert forall k :: 0 <= k < |errors| ==>
        ParseProblem(problems[k]) == Some(ParsedProblem(Config, readableReport([errors[k]]))) by {
        forall k | 0 <= k < |errors| {
          ParseFormatProblem(Config, readableReport([errors[k]]));
        }
      }
      Left(problems)
  }

  /** How probing one storage service ends: `createService(connStr)` throws
      inside the promise executor, or `getServiceProperties` calls back with
      an error (its message) or with the service properties. */
  datatype StorageOutcome<P> =
    | ServiceThrew(thrown: Thrown)
    | CallbackError(message: string)
    | CallbackResult(properties: P)

  /** The rejection of a storage callback error: its message with every
      newline replaced by a space. */
  function StorageProblems(rejection: string): seq<HealthProblem>
  {
    ToHealthProblems(AzureStorage, NonError(Str(ReplaceAll(rejection, '\n', ' '))))
  }

  /** The problems of a failed storage probe: a callback error is
      newline-replaced, a throw of `createService` is reported as thrown. */
  function StorageFailure<P>(outcome: StorageOutcome<P>): (r: seq<HealthProblem>)
    requires !outcome.CallbackResult?
    ensures |r| == 1
    ensures outcome.ServiceThrew? ==>
      ParseProblem(r[0]) == Some(ParsedProblem(AzureStorage, ErrorMessage(outcome.thrown)))
    ensures outcome.CallbackError? ==>
      ParseProblem(r[0]) == Some(ParsedProblem(AzureStorage, ReplaceAll(outcome.message, '\n', ' ')))
  {
    match outcome
    case ServiceThrew(e) => ToHealthProblems(AzureStorage, e)
    case CallbackError(m) => StorageProblems(m)
  }

  /** The check of one storage service. */
  function CheckStorageService<P>(probe: (StorageService, string) -> StorageOutcome<P>,
                                  connStr: string, service: StorageService): (r: HealthResult<P>)
    ensures r.Right? <==> probe(service, connStr).CallbackResult?
    ensures r.Right? ==> r.right == probe(service, connStr).properties
    ensures r.Left? ==> |r.left| == 1 && IsProblemOf(r.left[0], AzureStorage)
  {
    var outcome := probe(service, connStr);
    if outcome.CallbackResult? then Right(outcome.properties) else Left(StorageFailure(outcome))
  }

  /** `checkAzureStorageHealth(connStr)`: `true` when all four services
      answer; otherwise the problems of the first failing service, in probing
      order. */
  function CheckAzureStorageHealth<P>(connStr: string, probe: (StorageService, string) -> StorageOutcome<P>)
    : (r: HealthResult<bool>)
    ensures r.Right? <==> forall k :: 0 <= k < 4 ==> probe(StorageServices()[k], connStr).CallbackResult?
    ensures r.Right? ==> r.right
    ensures r.Left? ==> exists k :: (0 <= k < 4 && !probe(StorageServices()[k], connStr).CallbackResult?
      && (forall j :: 0 <= j < k ==> probe(StorageServices()[j], connStr).CallbackResult?)
      && r.left == StorageFailure(probe(StorageServices()[k], connStr)))
  {
    var checks := seq(4, k requires 0 <= k < 4 => CheckStorageService(probe, connStr, StorageServices()[k]));
    assert forall k :: 0 <= k < 4 ==>
      (checks[k].Right? <==> probe(StorageServices()[k], connStr).CallbackResult?);
    SequenceResults(checks).Map((_: seq<P>) => true)
  }

  /** A storage callback error is one problem, attributed to Azure Storage,
      that holds no newline. */
  lemma StorageProblemsShape(rejection: string)
    ensures |StorageProblems(rejection)| == 1
    ensures IsProblemOf(StorageProblems(rejection)[0], AzureStorage)
    ensures ParseProblem(StorageProblems(rejection)[0]).value.message == ReplaceAll(rejection, '\n', ' ')
    ensures '\n' !in StorageProblems(rejection)[0]
  {
    var message := ReplaceAll(rejection, '\n', ' ');
    SourceNamedName(AzureStorage);
    assert StorageProblems(rejection)[0] == AzureStorage.Name() + "|" + message;
  }

  /** A throw of `createService` is one Azure Storage problem holding the
      thrown message as it is: a newline in it is kept. */
  lemma StorageThrowKeepsNewlines(message: string)
    requires '\n' in message
    ensures var problems := StorageFailure<()>(ServiceThrew(ErrorObject(message)));
      |problems| == 1 && IsProblemOf(problems[0], AzureStorage) && '\n' in problems[0]
  {
    var problems := StorageFailure<()>(ServiceThrew(ErrorObject(message)));
    assert problems == [FormatProblem(AzureStorage, message)] by {
      assert ErrorMessage(ErrorObject(message)) == message;
    }
    ParseFormatProblem(AzureStorage, message);
    FormatProblemKeepsChar(AzureStorage, message, '\n');
  }

  /** How the Postgres probe ends: `new Sequelize(dbUri, ...)` throws while the
      task starts, or the `SELECT 1` query rejects or resolves. */
  datatype PostgresOutcome<R> =
    | ConstructorThrew(thrown: Thrown)
    | QueryRejected(error: Thrown)
    | QueryResolved(rows: R)

  /** What running a health task gives: its result, or an exception that
      escaped `tryCatch` and rejects the run itself. */
  datatype Run<T> = Settled(result: HealthResult<T>) | Escaped(thrown: Thrown)

  /** `checkPostgresHealth(dbUri)`: `true` when the query against `dbUri`
      resolves; a rejection of the query is a `PostgresDB` problem; a throw of
      the constructor is not caught by `tryCatch` and escapes the check. */
  function CheckPostgresHealth<R>(dbUri: string, probe: string -> PostgresOutcome<R>): (r: Run<bool>)
    ensures r == Settled(Right(true)) <==> probe(dbUri).QueryResolved?
    ensures r.Settled? ==> r.result.Right? ==> r.result.right
    ensures probe(dbUri).QueryRejected? ==> r == Settled(Left(ToHealthProblems(PostgresDB, probe(dbUri).error)))
    ensures r.Escaped? <==> probe(dbUri).ConstructorThrew?
    ensures r.Escaped? ==> r.thrown == probe(dbUri).thrown
  {
    match probe(dbUri)
    case ConstructorThrew(e) => Escaped(e)
    case QueryRejected(e) => Settled(Left(ToHealthProblems(PostgresDB, e)))
    case QueryResolved(_) => Settled(Right(true))
  }

  /** `checkUrlHealth(url)`: `true` when the `HEAD` request to `url`
      resolves (on any HTTP status); otherwise its rejection as a `Url`
      problem. */
  function CheckUrlHealth<R>(url: string, fetchHead: string -> Either<Thrown, R>): (r: HealthResult<bool>)
    ensures r.Right? <==> fetchHead(url).Right?
    ensures r.Right? ==> r.right
    ensures r.Left? ==> r.left == ToHealthProblems(Url, fetchHead(url).left)
  {
    fetchHead(url).Bimap((e: Thrown) => ToHealthProblems(Url, e), (_: R) => true)
  }

  /** `checkApplicationHealth()`: the configuration check first; only when it
      passes, the Postgres check on the configured read-only URI. Only the
      first failing stage is reported, and an exception the Postgres check
      lets escape rejects the whole run. */
  function CheckApplicationHealth<R>(config: Either<Errors, AppConfig>, readableReport: Errors -> string,
                                     probe: string -> PostgresOutcome<R>): (r: Run<bool>)
    ensures config.Left? ==> r == Settled(Left(CheckConfigHealth(config, readableReport).left))
    ensures config.Right? ==> r == CheckPostgresHealth(config.right.postgresReadOnlyUri, probe)
  {
    match Right(()).Chain((_: ()) => CheckConfigHealth(config, readableReport))
    case Left(problems) => Settled(Left(problems))
    case Right(c) =>
      match CheckPostgresHealth(c.postgresReadOnlyUri, probe)
      case Escaped(e) => Escaped(e)
      case Settled(result) => Settled(SequenceResults([result]).Map((_: seq<bool>) => true))
  }

  /** The application is healthy exactly when the configuration reads and the
      configured database answers; health is always reported as `true`. */
  lemma ApplicationHealthyIff<R>(config: Either<Errors, AppConfig>, readableReport: Errors -> string,
                                 probe: string -> PostgresOutcome<R>)
    ensures var r := CheckApplicationHealth(config, readableReport, probe);
      && (r == Settled(Right(true)) <==> config.Right? && probe(config.right.postgresReadOnlyUri).QueryResolved?)
      && (r.Settled? && r.result.Right? ==> r.result.right)
  {
  }

  /** A configuration failure is reported alone: one `Config` problem per
      configuration error, and the database is never consulted (the outcome
      is the same whatever the database would answer). */
  lemma ConfigFailureReportedAlone<R>(config: Either<Errors, AppConfig>, readableReport: Errors -> string,
                                      probe1: string -> PostgresOutcome<R>, probe2: string -> PostgresOutcome<R>)
    requires config.Left?
    ensures var r := CheckApplicationHealth(config, readableReport, probe1);
      && r == CheckApplicationHealth(config, readableReport, probe2)
      && r.Settled? && r.result.Left? && |r.result.left| == |config.left|
      && forall k :: 0 <= k < |r.result.left| ==> IsProblemOf(r.result.left[k], Config)
  {
  }

  /** A database failure after a good configuration is one `PostgresDB`
      problem holding the database error's message. */
  lemma DatabaseFailureReported<R>(config: Either<Errors, AppConfig>, readableReport: Errors -> string,
                                   probe: string -> PostgresOutcome<R>)
    requires config.Right? && probe(config.right.postgresReadOnlyUri).QueryRejected?
    ensures var r := CheckApplicationHealth(config, readableReport, probe);
      && r.Settled? && r.result.Left? && |r.result.left| == 1
      && ParseProblem(r.result.left[0])
        == Some(ParsedProblem(PostgresDB, ErrorMessage(probe(config.right.postgresReadOnlyUri).error)))
  {
  }

  /** A throw of the `Sequelize` constructor after a good configuration is not
      a health problem: it rejects the run with what was thrown. */
  lemma DatabaseConstructorThrowEscapes<R>(config: Either<Errors, AppConfig>, readableReport: Errors -> string,
                                           probe: string -> PostgresOutcome<R>)
    requires config.Right? && probe(config.right.postgresReadOnlyUri).ConstructorThrew?
    ensures CheckApplicationHealth(config, readableReport, probe)
      == Escaped(probe(config.right.postgresReadOnlyUri).thrown)
  {
  }
}
