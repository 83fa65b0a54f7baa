/** The configuration schema, its defaults, and its reading from JSON. */
module Configuration {
  import opened Bytes
  import Numerals
  import opened Json
  import Doubles

  /** `usize` on a 64-bit target. */
  const USIZE_MAX: nat := Numerals.U64_MAX
  const U16_MAX: nat := 0xFFFF

  datatype ServerConfig = ServerConfig(
    bind: bytes, port: nat, workerThreads: nat, maxConnections: nat,
    keepAliveSecs: nat, readTimeoutSecs: nat, requestMaxBytes: nat)

  datatype StaticConfig = StaticConfig(
    root: bytes, indexFiles: seq<bytes>, followSymlinks: bool, directoryListing: bool)

  datatype CompressionConfig = CompressionConfig(gzip: bool, minBytes: nat)

  datatype RateLimitConfig = RateLimitConfig(enabled: bool, requests: nat, windowSecs: nat, banSecs: nat)

  datatype SecurityConfig = SecurityConfig(
    enableSecurityHeaders: bool, rateLimit: RateLimitConfig, blockedPatterns: seq<bytes>)

  datatype TlsConfig = TlsConfig(enabled: bool, certPath: bytes, keyPath: bytes)

  datatype AdminConfig = AdminConfig(username: bytes, passwordSha256: bytes)

  datatype LoggingConfig = LoggingConfig(level: bytes, accessLog: bool)

  datatype Config = Config(
    server: ServerConfig, staticFiles: StaticConfig, compression: CompressionConfig, security: SecurityConfig,
    tls: TlsConfig, admin: AdminConfig, logging: LoggingConfig, mimeOverrides: seq<(bytes, bytes)>)

  const DEFAULT: Config := Config(
    ServerConfig("0.0.0.0", 8080, 0, 1024, 15, 30, 1024 * 1024),
    StaticConfig("./public", ["index.html", "index.htm"], false, false),
    CompressionConfig(true, 1024),
    SecurityConfig(false, RateLimitConfig(true, 600, 600, 300), []),
    TlsConfig(false, "", ""),
    AdminConfig("", ""),
    LoggingConfig("info", true),
    [])

  const LOG_LEVELS: seq<bytes> := ["error", "warn", "info", "debug", "trace"]

  datatype ConfigError =
    | Syntax(error: JsonError)
    | NotAnObject
    | WrongType(path: bytes)
    | InvalidValue(path: bytes, reason: string)

  type Read<T> = Result<T, ConfigError>

  /** How numerals other than plain digits are read. */
  type NumeralReader = bytes -> Option<nat>

  // ----- fields: a missing key leaves the slot as it is -----

  function Path(path: bytes, key: bytes): bytes {
    path + "." + key
  }

  function ReadBool(obj: JsonValue, key: bytes, slot: bool, path: bytes): Read<bool> {
    match obj.Get(key)
    case None => Ok(slot)
    case Some(v) => if v.Bool? then Ok(v.b) else Err(WrongType(Path(path, key)))
  }

  function ReadString(obj: JsonValue, key: bytes, slot: bytes, path: bytes): Read<bytes> {
    match obj.Get(key)
    case None => Ok(slot)
    case Some(v) => if v.String? then Ok(v.s) else Err(WrongType(Path(path, key)))
  }

  function ReadU64(obj: JsonValue, key: bytes, slot: nat, path: bytes, other: NumeralReader): Read<nat> {
    match obj.Get(key)
    case None => Ok(slot)
    case Some(v) =>
      match Doubles.AsU64(v, other)
      case None => Err(WrongType(Path(path, key)))
      case Some(n) => Ok(n)
  }

  function ReadBounded(
    obj: JsonValue, key: bytes, slot: nat, path: bytes, max: nat, reason: string, other: NumeralReader): Read<nat>
  {
    match obj.Get(key)
    case None => Ok(slot)
    case Some(_) =>
      var n :- ReadU64(obj, key, slot, path, other);
      if n > max then Err(InvalidValue(Path(path, key), reason)) else Ok(n)
  }

  function ReadUsize(obj: JsonValue, key: bytes, slot: nat, path: bytes, other: NumeralReader): Read<nat> {
    ReadBounded(obj, key, slot, path, USIZE_MAX, "value too large", other)
  }

  function ReadU16(obj: JsonValue, key: bytes, slot: nat, path: bytes, other: NumeralReader): Read<nat> {
    ReadBounded(obj, key, slot, path, U16_MAX, "must be 1-65535", other)
  }

  /** The strings of an array from an index on; the first other item is named. */
  function StringsFrom(items: seq<JsonValue>, i: nat, path: bytes): Read<seq<bytes>>
    requires i <= |items|
    decreases |items| - i
  {
    if i == |items| then Ok([])
    else if !items[i].String? then Err(WrongType(path + "[" + Numerals.Dec(i) + "]"))
    else
      var rest :- StringsFrom(items, i + 1, path);
      Ok([items[i].s] + rest)
  }

  function StringsOf(v: JsonValue, path: bytes): Read<seq<bytes>> {
    if v.Array? then StringsFrom(v.items, 0, path) else Err(WrongType(path))
  }

  /** Continues an accumulated list with what the rest reads as. */
  function After<T>(done: seq<T>, rest: Read<seq<T>>): Read<seq<T>> {
    match rest
    case Ok(values) => Ok(done + values)
    case Err(e) => Err(e)
  }

  lemma StartAfter<T>(r: Read<seq<T>>)
    ensures After([], r) == r
  {
    if r.Ok? {
      assert [] + r.value == r.value;
    }
  }

  lemma EndAfter<T>(done: seq<T>)
    ensures After(done, Ok([])) == Ok(done)
  {
    assert done + [] == done;
  }

  method ReadStringArray(v: JsonValue, path: bytes) returns (r: Read<seq<bytes>>)
    ensures r == StringsOf(v, path)
  {
    if !v.Array? {
      return Err(WrongType(path));
    }
    var out := [];
    StartAfter(StringsOf(v, path));
    for i := 0 to |v.items|
      invariant StringsOf(v, path) == After(out, StringsFrom(v.items, i, path))
    {
      var item := v.items[i];
      if !item.String? {
        return Err(WrongType(path + "[" + Numerals.Dec(i) + "]"));
      }
      ghost var rest := StringsFrom(v.items, i + 1, path);
      assert rest.Ok? ==> out + ([item.s] + rest.value) == out + [item.s] + rest.value;
      out := out + [item.s];
    }
    EndAfter(out);
    return Ok(out);
  }

  /** The members of an object from an index on, all of them strings. */
  function PairsFrom(members: seq<(bytes, JsonValue)>, i: nat, path: bytes): Read<seq<(bytes, bytes)>>
    requires i <= |members|
    decreases |members| - i
  {
    if i == |members| then Ok([])
    else if !members[i].1.String? then Err(WrongType(Path(path, members[i].0)))
    else
      var rest :- PairsFrom(members, i + 1, path);
      Ok([(members[i].0, members[i].1.s)] + rest)
  }

  function PairsOf(v: JsonValue, path: bytes): Read<seq<(bytes, bytes)>> {
    if v.Object? then PairsFrom(v.members, 0, path) else Err(WrongType(path))
  }

  method ReadStringMap(v: JsonValue, path: bytes) returns (r: Read<seq<(bytes, bytes)>>)
    ensures r == PairsOf(v, path)
  {
    if !v.Object? {
      return Err(WrongType(path));
    }
    var out := [];
    StartAfter(PairsOf(v, path));
    for i := 0 to |v.members|
      invariant PairsOf(v, path) == After(out, PairsFrom(v.members, i, path))
    {
      var (key, item) := v.members[i];
      if !item.String? {
        return Err(WrongType(Path(path, key)));
      }
      ghost var rest := PairsFrom(v.members, i + 1, path);
      assert rest.Ok? ==> out + ([(key, item.s)] + rest.value) == out + [(key, item.s)] + rest.value;
      out := out + [(key, item.s)];
    }
    EndAfter(out);
    return Ok(out);
  }

  // ----- sections -----

  function ReadServer(v: JsonValue, d: ServerConfig, other: NumeralReader): Read<ServerConfig> {
    var bind :- ReadString(v, "bind", d.bind, "server");
    var port :- ReadU16(v, "port", d.port, "server", other);
    var workerThreads :- ReadUsize(v, "worker_threads", d.workerThreads, "server", other);
    var maxConnections :- ReadUsize(v, "max_connections", d.maxConnections, "server", other);
    var keepAliveSecs :- ReadU64(v, "keep_alive_secs", d.keepAliveSecs, "server", other);
    var readTimeoutSecs :- ReadU64(v, "read_timeout_secs", d.readTimeoutSecs, "server", other);
    var requestMaxBytes :- ReadUsize(v, "request_max_bytes", d.requestMaxBytes, "server", other);
    Ok(ServerConfig(bind, port, workerThreads, maxConnections, keepAliveSecs, readTimeoutSecs, requestMaxBytes))
  }

  function ReadStatic(v: JsonValue, d: StaticConfig): Read<StaticConfig> {
    var root :- ReadString(v, "root", d.root, "static");
    var followSymlinks :- ReadBool(v, "follow_symlinks", d.followSymlinks, "static");
    var directoryListing :- ReadBool(v, "directory_listing", d.directoryListing, "static");
    var indexFiles :-
      match v.Get("index_files")
      case None => Ok(d.indexFiles)
      case Some(files) => StringsOf(files, "static.index_files");
    Ok(StaticConfig(root, indexFiles, followSymlinks, directoryListing))
  }

  function ReadCompression(v: JsonValue, d: CompressionConfig, other: NumeralReader): Read<CompressionConfig> {
    var gzip :- ReadBool(v, "gzip", d.gzip, "compression");
    var minBytes :- ReadUsize(v, "min_bytes", d.minBytes, "compression", other);
    Ok(CompressionConfig(gzip, minBytes))
  }

  function ReadRateLimit(v: JsonValue, d: RateLimitConfig, other: NumeralReader): Read<RateLimitConfig> {
    var enabled :- ReadBool(v, "enabled", d.enabled, "security.rate_limit");
    var requests :- ReadU64(v, "requests", d.requests, "security.rate_limit", other);
    var windowSecs :- ReadU64(v, "window_secs", d.windowSecs, "security.rate_limit", other);
    var banSecs :- ReadU64(v, "ban_secs", d.banSecs, "security.rate_limit", other);
    Ok(RateLimitConfig(enabled, requests, windowSecs, banSecs))
  }

  function ReadSecurity(v: JsonValue, d: SecurityConfig, other: NumeralReader): Read<SecurityConfig> {
    var enableSecurityHeaders :- ReadBool(v, "enable_security_headers", d.enableSecurityHeaders, "security");
    var rateLimit :-
      match v.Get("rate_limit")
      case None => Ok(d.rateLimit)
      case Some(limit) => ReadRateLimit(limit, d.rateLimit, other);
    var blockedPatterns :-
      match v.Get("blocked_patterns")
      case None => Ok(d.blockedPatterns)
      case Some(patterns) => StringsOf(patterns, "security.blocked_patterns");
    Ok(SecurityConfig(enableSecurityHeaders, rateLimit, blockedPatterns))
  }

  function ReadTls(v: JsonValue, d: TlsConfig): Read<TlsConfig> {
    var enabled :- ReadBool(v, "enabled", d.enabled, "tls");
    var certPath :- ReadString(v, "cert_path", d.certPath, "tls");
    var keyPath :- ReadString(v, "key_path", d.keyPath, "tls");
    Ok(TlsConfig(enabled, certPath, keyPath))
  }

  function ReadAdmin(v: JsonValue, d: AdminConfig): Read<AdminConfig> {
    var username :- ReadString(v, "username", d.username, "admin");
    var passwordSha256 :- ReadString(v, "password_sha256", d.passwordSha256, "admin");
    Ok(AdminConfig(username, passwordSha256))
  }

  function ReadLogging(v: JsonValue, d: LoggingConfig): Read<LoggingConfig> {
    var level :- ReadString(v, "level", d.level, "logging");
    var accessLog :- ReadBool(v, "access_log", d.accessLog, "logging");
    Ok(LoggingConfig(level, accessLog))
  }

  function Validate(c: Config): Read<()> {
    if c.server.port == 0 then Err(InvalidValue("server.port", "must be 1-65535"))
    else if c.server.bind == [] then Err(InvalidValue("server.bind", "must not be empty"))
    else if c.staticFiles.root == [] then Err(InvalidValue("static.root", "must not be empty"))
    else if c.tls.enabled && c.tls.certPath == [] then
      Err(InvalidValue("tls.cert_path", "required when tls.enabled is true"))
    else if c.tls.enabled && c.tls.keyPath == [] then
      Err(InvalidValue("tls.key_path", "required when tls.enabled is true"))
    else if c.logging.level !in LOG_LEVELS then
      Err(InvalidValue("logging.level", "must be error|warn|info|debug|trace"))
    else Ok(())
  }

  // ----- the whole: each section present replaces its part of the record -----

  function WithServer(root: JsonValue, c: Config, other: NumeralReader): Read<Config> {
    match root.Get("server")
    case None => Ok(c)
    case Some(v) =>
      var section :- ReadServer(v, c.server, other);
      Ok(c.(server := section))
  }

  function WithStatic(root: JsonValue, c: Config): Read<Config> {
    match root.Get("static")
    case None => Ok(c)
    case Some(v) =>
      var section :- ReadStatic(v, c.staticFiles);
      Ok(c.(staticFiles := section))
  }

  function WithCompression(root: JsonValue, c: Config, other: NumeralReader): Read<Config> {
    match root.Get("compression")
    case None => Ok(c)
    case Some(v) =>
      var section :- ReadCompression(v, c.compression, other);
      Ok(c.(compression := section))
  }

  function WithSecurity(root: JsonValue, c: Config, other: NumeralReader): Read<Config> {
    match root.Get("security")
    case None => Ok(c)
    case Some(v) =>
      var section :- ReadSecurity(v, c.security, other);
      Ok(c.(security := section))
  }

  function WithTls(root: JsonValue, c: Config): Read<Config> {
    match root.Get("tls")
    case None => Ok(c)
    case Some(v) =>
      var section :- ReadTls(v, c.tls);
      Ok(c.(tls := section))
  }

  function WithAdmin(root: JsonValue, c: Config): Read<Config> {
    match root.Get("admin")
    case None => Ok(c)
    case Some(v) =>
      var section :- ReadAdmin(v, c.admin);
      Ok(c.(admin := section))
  }

  function WithLogging(root: JsonValue, c: Config): Read<Config> {
    match root.Get("logging")
    case None => Ok(c)
    case Some(v) =>
      var section :- ReadLogging(v, c.logging);
      Ok(c.(logging := section))
  }

  function WithMimeOverrides(root: JsonValue, c: Config): Read<Config> {
    match root.Get("mime_overrides")
    case None => Ok(c)
    case Some(v) =>
      var pairs :- PairsOf(v, "mime_overrides");
      Ok(c.(mimeOverrides := pairs))
  }

  /** The configuration that a JSON value denotes; what it leaves out keeps its
      default. */
  function FromJson(root: JsonValue, other: NumeralReader): Read<Config> {
    if !root.Object? then Err(NotAnObject)
    else
      var c :- WithServer(root, DEFAULT, other);
      var c :- WithStatic(root, c);
      var c :- WithCompression(root, c, other);
      var c :- WithSecurity(root, c, other);
      var c :- WithTls(root, c);
      var c :- WithAdmin(root, c);
      var c :- WithLogging(root, c);
      var c :- WithMimeOverrides(root, c);
      var _ :- Validate(c);
      Ok(c)
  }

  function FromJsonStr(text: bytes, other: NumeralReader): Read<Config> {
    match ParseDocument(text)
    case Err(e) => Err(Syntax(e))
    case Ok(root) => FromJson(root, other)
  }
}
