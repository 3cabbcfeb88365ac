/**
 * cmd/dynamic-user-segmentation/config.go: the log-level parser and the
 * two configuration validators. Each validator is an if-chain in the
 * source; its contract relates it to an independent list of the checks
 * in source order, so that the error is the one of the first failing
 * check and a configuration passes exactly when every check holds.
 */
module Config {
  import opened Wrappers
  import opened CustomErrors
  import opened Strings

  // ---------------------------------------------------------------------
  // stringToZapLogLevel

  /** zapcore.Level; `InvalidLevel` is what the parser returns beside an error. */
  datatype Level = DebugLevel | InfoLevel | WarnLevel | ErrorLevel | DPanicLevel | PanicLevel | FatalLevel | InvalidLevel

  const ErrZapLoggerInvalidLevel := "invalid level (debug, info, warn, error, dpanic, panic, fatal)"

  /** The name of each real level, as the configuration spells it. */
  function LevelName(l: Level): string
    requires l != InvalidLevel
  {
    match l
    case DebugLevel => "debug"
    case InfoLevel => "info"
    case WarnLevel => "warn"
    case ErrorLevel => "error"
    case DPanicLevel => "dpanic"
    case PanicLevel => "panic"
    case FatalLevel => "fatal"
  }

  const LevelNames: seq<string> := ["debug", "info", "warn", "error", "dpanic", "panic", "fatal"]

  /**
   * stringToZapLogLevel: the seven names, in any letter case, map to
   * their level; anything else gives InvalidLevel and the level error.
   */
  function StringToZapLogLevel(level: string): (r: (Level, Option<Error>))
    ensures r.1 == None <==> ToLower(level) in LevelNames
    ensures r.1 == None ==> r.0 != InvalidLevel && LevelName(r.0) == ToLower(level)
    ensures r.1 != None ==> r.0 == InvalidLevel && r.1 == Some(Plain("level: " + ErrZapLoggerInvalidLevel))
  {
    var l := ToLower(level);
    if l == "debug" then (DebugLevel, None)
    else if l == "info" then (InfoLevel, None)
    else if l == "warn" then (WarnLevel, None)
    else if l == "error" then (ErrorLevel, None)
    else if l == "dpanic" then (DPanicLevel, None)
    else if l == "panic" then (PanicLevel, None)
    else if l == "fatal" then (FatalLevel, None)
    else (InvalidLevel, Some(Plain("level: " + ErrZapLoggerInvalidLevel)))
  }

  /** Lower-casing after upper-casing is the same as lower-casing. */
  lemma LowerOfUpper(s: string)
    ensures ToLower(ToUpper(s)) == ToLower(s)
  {
    var a, b := ToLower(ToUpper(s)), ToLower(s);
    assert |a| == |b|;
    forall i | 0 <= i < |s| ensures a[i] == b[i] {
      assert ToUpper(s)[i] == UpperChar(s[i]);
    }
  }

  /** The parser ignores letter case: a name in capitals parses like the name itself. */
  lemma LevelCaseInsensitive(level: string)
    ensures StringToZapLogLevel(ToUpper(level)) == StringToZapLogLevel(level)
  {
    LowerOfUpper(level);
  }

  /** Every real level's name parses back to that level. */
  lemma LevelRoundTrip(l: Level)
    requires l != InvalidLevel
    ensures StringToZapLogLevel(LevelName(l)) == (l, None)
    ensures StringToZapLogLevel(ToUpper(LevelName(l))) == (l, None)
  {
    var n := LevelName(l);
    assert ToLower(n) == n by {
      forall i | 0 <= i < |n| ensures LowerChar(n[i]) == n[i] {
        assert 'a' <= n[i] <= 'z';
      }
    }
    assert n in LevelNames;
    LevelNameInjective(StringToZapLogLevel(n).0, l);
    LevelCaseInsensitive(n);
  }

  /** Distinct levels have distinct names. */
  lemma LevelNameInjective(a: Level, b: Level)
    requires a != InvalidLevel && b != InvalidLevel && LevelName(a) == LevelName(b)
    ensures a == b
  {
  }

  // ---------------------------------------------------------------------
  // validateZapLoggerConfig

  /** zap_logger.Config. */
  datatype ZapLoggerConfig = ZapLoggerConfig(level: Level, encoding: string,
                                             outputPath: seq<string>, errorOutputPath: seq<string>)

  datatype ZapCheck = EncodingCheck | OutputPathCheck | ErrorOutputPathCheck

  /** The checks of validateZapLoggerConfig, in source order. */
  const ZapChecks: seq<ZapCheck> := [EncodingCheck, OutputPathCheck, ErrorOutputPathCheck]

  predicate ZapHolds(cfg: ZapLoggerConfig, c: ZapCheck)
  {
    match c
    case EncodingCheck => cfg.encoding in {"json", "console"}
    case OutputPathCheck => |cfg.outputPath| != 0
    case ErrorOutputPathCheck => |cfg.errorOutputPath| != 0
  }

  function ZapMessage(c: ZapCheck): string
  {
    match c
    case EncodingCheck => "encoding: invalid encoding (json, console)"
    case OutputPathCheck => "output path: empty output path"
    case ErrorOutputPathCheck => "error output path: empty error output path"
  }

  /** Check k fails and every earlier check holds. */
  predicate ZapFirstFailure(cfg: ZapLoggerConfig, k: int)
  {
    0 <= k < |ZapChecks| && !ZapHolds(cfg, ZapChecks[k]) && forall j :: 0 <= j < k ==> ZapHolds(cfg, ZapChecks[j])
  }

  /** The if-chain of validateZapLoggerConfig: the first check, in source order, that fails. */
  function ZapFailingCheck(cfg: ZapLoggerConfig): (c: Option<ZapCheck>)
    ensures c == None <==> forall i :: 0 <= i < |ZapChecks| ==> ZapHolds(cfg, ZapChecks[i])
    ensures c != None ==> exists k :: ZapFirstFailure(cfg, k) && c == Some(ZapChecks[k])
  {
    if cfg.encoding != "json" && cfg.encoding != "console" then
      assert ZapFirstFailure(cfg, 0);
      Some(EncodingCheck)
    else if |cfg.outputPath| == 0 then
      assert ZapFirstFailure(cfg, 1);
      Some(OutputPathCheck)
    else if |cfg.errorOutputPath| == 0 then
      assert ZapFirstFailure(cfg, 2);
      Some(ErrorOutputPathCheck)
    else
      None
  }

  /**
   * validateZapLoggerConfig: no error exactly when every check holds;
   * otherwise the error of the first failing check.
   */
  function ValidateZapLoggerConfig(cfg: ZapLoggerConfig): (r: Option<Error>)
    ensures r == None <==> forall i :: 0 <= i < |ZapChecks| ==> ZapHolds(cfg, ZapChecks[i])
    ensures r != None ==> exists k :: ZapFirstFailure(cfg, k) && r == Some(Plain(ZapMessage(ZapChecks[k])))
  {
    match ZapFailingCheck(cfg)
    case None => None
    case Some(c) => Some(Plain(ZapMessage(c)))
  }

  // ---------------------------------------------------------------------
  // validatePostgresConfig

  /** postgres.Config; the two durations are time.Duration nanosecond counts. */
  datatype PostgresConfig = PostgresConfig(host: string, port: int, username: string, password: string,
                                           dbName: string, sslMode: string, maxConns: int, minConns: int,
                                           maxConnLifetime: int, maxConnIdleTime: int)

  datatype PostgresCheck =
    | HostCheck | PortCheck | UsernameCheck | PasswordCheck | DBNameCheck | SSLModeCheck
    | MaxConnsCheck | MinConnsCheck | MaxConnLifetimeCheck | MaxConnIdleTimeCheck

  /** The checks of validatePostgresConfig, in source order. */
  const PostgresChecks: seq<PostgresCheck> :=
    [HostCheck, PortCheck, UsernameCheck, PasswordCheck, DBNameCheck, SSLModeCheck,
     MaxConnsCheck, MinConnsCheck, MaxConnLifetimeCheck, MaxConnIdleTimeCheck]

  const SSLModes: set<string> := {"disable", "allow", "prefer", "require", "verify-ca", "verify-full"}

  predicate PostgresHolds(cfg: PostgresConfig, c: PostgresCheck)
  {
    match c
    case HostCheck => cfg.host != ""
    case PortCheck => 0 <= cfg.port <= 65535
    case UsernameCheck => cfg.username != ""
    case PasswordCheck => cfg.password != ""
    case DBNameCheck => cfg.dbName != ""
    case SSLModeCheck => cfg.sslMode in SSLModes
    case MaxConnsCheck => cfg.maxConns > 0
    case MinConnsCheck => cfg.minConns > 0
    case MaxConnLifetimeCheck => cfg.maxConnLifetime > 0
    case MaxConnIdleTimeCheck => cfg.maxConnIdleTime > 0
  }

  function PostgresMessage(c: PostgresCheck): string
  {
    match c
    case HostCheck => "host: empty host"
    case PortCheck => "port: invalid port (from 0 to 65535 inclusively)"
    case UsernameCheck => "username: empty username"
    case PasswordCheck => "password: empty password"
    case DBNameCheck => "database name: empty database name"
    case SSLModeCheck => "ssl mode: invalid ssl mode (disable, allow, prefer, require, verify-ca, verify-full"
    case MaxConnsCheck => "max conns: max conns cannot be less than zero"
    case MinConnsCheck => "min conns: min conns cannot be less than zero"
    case MaxConnLifetimeCheck => "max conn lifetime: max conn lifetime cannot be less than zero"
    case MaxConnIdleTimeCheck => "max conn idle time: max conn idle time cannot be less than zero"
  }

  /** Check k fails and every earlier check holds. */
  predicate PostgresFirstFailure(cfg: PostgresConfig, k: int)
  {
    0 <= k < |PostgresChecks| && !PostgresHolds(cfg, PostgresChecks[k])
    && forall j :: 0 <= j < k ==> PostgresHolds(cfg, PostgresChecks[j])
  }

  /** The if-chain of validatePostgresConfig: the first check, in source order, that fails. */
  function PostgresFailingCheck(cfg: PostgresConfig): (c: Option<PostgresCheck>)
    ensures c == None <==> forall i :: 0 <= i < |PostgresChecks| ==> PostgresHolds(cfg, PostgresChecks[i])
    ensures c != None ==> exists k :: PostgresFirstFailure(cfg, k) && c == Some(PostgresChecks[k])
  {
    if cfg.host == "" then
      assert PostgresFirstFailure(cfg, 0);
      Some(HostCheck)
    else if cfg.port < 0 || cfg.port > 65535 then
      assert PostgresFirstFailure(cfg, 1);
      Some(PortCheck)
    else if cfg.username == "" then
      assert PostgresFirstFailure(cfg, 2);
      Some(UsernameCheck)
    else if cfg.password == "" then
      assert PostgresFirstFailure(cfg, 3);
      Some(PasswordCheck)
    else if cfg.dbName == "" then
      assert PostgresFirstFailure(cfg, 4);
      Some(DBNameCheck)
    else if cfg.sslMode !in SSLModes then
      assert PostgresFirstFailure(cfg, 5);
      Some(SSLModeCheck)
    else if cfg.maxConns <= 0 then
      assert PostgresFirstFailure(cfg, 6);
      Some(MaxConnsCheck)
    else if cfg.minConns <= 0 then
      assert PostgresFirstFailure(cfg, 7);
      Some(MinConnsCheck)
    else if cfg.maxConnLifetime <= 0 then
      assert PostgresFirstFailure(cfg, 8);
      Some(MaxConnLifetimeCheck)
    else if cfg.maxConnIdleTime <= 0 then
      assert PostgresFirstFailure(cfg, 9);
      Some(MaxConnIdleTimeCheck)
    else
      None
  }

  /**
   * validatePostgresConfig: no error exactly when every check holds;
   * otherwise the error of the first failing check.
   */
  function ValidatePostgresConfig(cfg: PostgresConfig): (r: Option<Error>)
    ensures r == None <==> forall i :: 0 <= i < |PostgresChecks| ==> PostgresHolds(cfg, PostgresChecks[i])
    ensures r != None ==> exists k :: PostgresFirstFailure(cfg, k) && r == Some(Plain(PostgresMessage(PostgresChecks[k])))
  {
    match PostgresFailingCheck(cfg)
    case None => None
    case Some(c) => Some(Plain(PostgresMessage(c)))
  }
}
