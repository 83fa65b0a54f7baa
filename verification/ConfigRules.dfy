/** Which JSON value loads as which configuration, field by field. */
module ConfigRules {
  import opened Bytes
  import opened Json
  import Numerals
  import opened Doubles
  import opened Configuration

  // ----- members -----

  /** The first member with a key. */
  predicate FirstMember(members: seq<(bytes, JsonValue)>, key: bytes, x: JsonValue, k: nat) {
    k < |members| && members[k] == (key, x) && forall i :: 0 <= i < k ==> members[i].0 != key
  }

  /** The value of a key in an object: that of the first member with the key. */
  lemma {:induction false} LookupIs(members: seq<(bytes, JsonValue)>, key: bytes, x: JsonValue)
    ensures Lookup(members, key) == Some(x) <==>
            exists k: nat :: FirstMember(members, key, x, k)
    ensures Lookup(members, key) == None <==> forall i :: 0 <= i < |members| ==> members[i].0 != key
  {
    if members != [] {
      LookupIs(members[1..], key, x);
      if members[0].0 == key {
        if Lookup(members, key) == Some(x) {
          assert FirstMember(members, key, x, 0);
        }
      } else {
        LookupSkips(members, key, x);
      }
    }
  }

  lemma LookupSkips(members: seq<(bytes, JsonValue)>, key: bytes, x: JsonValue)
    requires members != [] && members[0].0 != key
    ensures forall k: nat :: FirstMember(members[1..], key, x, k) ==> FirstMember(members, key, x, k + 1)
    ensures forall k: nat :: FirstMember(members, key, x, k) ==> k > 0 && FirstMember(members[1..], key, x, k - 1)
    ensures (forall i :: 0 <= i < |members[1..]| ==> members[1..][i].0 != key) ==>
              forall i :: 0 <= i < |members| ==> members[i].0 != key
  {
  }

  // ----- one field -----

  predicate BoolIs(v: JsonValue, key: bytes, default: bool, out: bool) {
    match v.Get(key) case None => out == default case Some(x) => x == Bool(out)
  }

  predicate TextIs(v: JsonValue, key: bytes, default: bytes, out: bytes) {
    match v.Get(key) case None => out == default case Some(x) => x == String(out)
  }

  predicate NatIs(v: JsonValue, key: bytes, default: nat, out: nat, max: nat, other: NumeralReader) {
    match v.Get(key) case None => out == default case Some(x) => AsU64(x, other) == Some(out) && out <= max
  }

  predicate ListIs(x: JsonValue, out: seq<bytes>) {
    x.Array? && |x.items| == |out| && forall i :: 0 <= i < |out| ==> x.items[i] == String(out[i])
  }

  predicate TextsAre(v: JsonValue, key: bytes, default: seq<bytes>, out: seq<bytes>) {
    match v.Get(key) case None => out == default case Some(x) => ListIs(x, out)
  }

  predicate PairsAre(x: JsonValue, out: seq<(bytes, bytes)>) {
    && x.Object? && |x.members| == |out|
    && forall i :: 0 <= i < |out| ==> x.members[i] == (out[i].0, String(out[i].1))
  }

  /** For 64-bit settings the reader's own range is the limit. */
  predicate WideIs(v: JsonValue, key: bytes, default: nat, out: nat, other: NumeralReader) {
    match v.Get(key) case None => out == default case Some(x) => AsU64(x, other) == Some(out)
  }

  lemma BoolReads(v: JsonValue, key: bytes, d: bool, path: bytes, out: bool)
    ensures ReadBool(v, key, d, path) == Ok(out) <==> BoolIs(v, key, d, out)
  {
    hide Lookup;
  }

  lemma TextReads(v: JsonValue, key: bytes, d: bytes, path: bytes, out: bytes)
    ensures ReadString(v, key, d, path) == Ok(out) <==> TextIs(v, key, d, out)
  {
    hide Lookup;
  }

  lemma NatReads(v: JsonValue, key: bytes, d: nat, path: bytes, other: NumeralReader, out: nat)
    ensures ReadU64(v, key, d, path, other) == Ok(out) <==> WideIs(v, key, d, out, other)
    ensures ReadUsize(v, key, d, path, other) == Ok(out) <==> NatIs(v, key, d, out, Numerals.U64_MAX, other)
    ensures ReadU16(v, key, d, path, other) == Ok(out) <==> NatIs(v, key, d, out, 65535, other)
  {
    hide Lookup; hide AsU64;
  }

  lemma {:induction false} ItemsRead(items: seq<JsonValue>, i: nat, path: bytes, out: seq<bytes>)
    requires i <= |items|
    ensures StringsFrom(items, i, path) == Ok(out) <==>
            |out| == |items| - i && forall k :: i <= k < |items| ==> items[k] == String(out[k - i])
    decreases |items| - i
  {
    hide Numerals.Print;
    if i < |items| && out != [] {
      ItemsRead(items, i + 1, path, out[1..]);
      assert out == [out[0]] + out[1..];
    }
  }

  lemma ListReads(x: JsonValue, path: bytes, out: seq<bytes>)
    ensures StringsOf(x, path) == Ok(out) <==> ListIs(x, out)
  {
    hide StringsFrom;
    if x.Array? {
      ItemsRead(x.items, 0, path, out);
    }
  }

  lemma {:induction false} MembersRead(members: seq<(bytes, JsonValue)>, i: nat, path: bytes, out: seq<(bytes, bytes)>)
    requires i <= |members|
    ensures PairsFrom(members, i, path) == Ok(out) <==>
            |out| == |members| - i
            && forall k :: i <= k < |members| ==> members[k] == (out[k - i].0, String(out[k - i].1))
    decreases |members| - i
  {
    if i < |members| && out != [] {
      MembersRead(members, i + 1, path, out[1..]);
      assert out == [out[0]] + out[1..];
    }
  }

  lemma PairsRead(x: JsonValue, path: bytes, out: seq<(bytes, bytes)>)
    ensures PairsOf(x, path) == Ok(out) <==> PairsAre(x, out)
  {
    hide PairsFrom;
    if x.Object? {
      MembersRead(x.members, 0, path, out);
    }
  }

  // ----- one section -----

  predicate ServerIs(v: JsonValue, s: ServerConfig, other: NumeralReader) {
    && TextIs(v, "bind", "0.0.0.0", s.bind)
    && NatIs(v, "port", 8080, s.port, 65535, other)
    && NatIs(v, "worker_threads", 0, s.workerThreads, Numerals.U64_MAX, other)
    && NatIs(v, "max_connections", 1024, s.maxConnections, Numerals.U64_MAX, other)
    && WideIs(v, "keep_alive_secs", 15, s.keepAliveSecs, other)
    && WideIs(v, "read_timeout_secs", 30, s.readTimeoutSecs, other)
    && NatIs(v, "request_max_bytes", 0x10_0000, s.requestMaxBytes, Numerals.U64_MAX, other)
  }

  lemma ServerReads(v: JsonValue, s: ServerConfig, other: NumeralReader)
    ensures ReadServer(v, DEFAULT.server, other) == Ok(s) <==> ServerIs(v, s, other)
  {
    hide TextIs; hide NatIs; hide WideIs; hide ReadString; hide ReadU16; hide ReadUsize; hide ReadU64;
    var d := DEFAULT.server;
    TextReads(v, "bind", d.bind, "server", s.bind);
    NatReads(v, "port", d.port, "server", other, s.port);
    NatReads(v, "worker_threads", d.workerThreads, "server", other, s.workerThreads);
    NatReads(v, "max_connections", d.maxConnections, "server", other, s.maxConnections);
    NatReads(v, "keep_alive_secs", d.keepAliveSecs, "server", other, s.keepAliveSecs);
    NatReads(v, "read_timeout_secs", d.readTimeoutSecs, "server", other, s.readTimeoutSecs);
    NatReads(v, "request_max_bytes", d.requestMaxBytes, "server", other, s.requestMaxBytes);
  }

  predicate StaticIs(v: JsonValue, s: StaticConfig) {
    && TextIs(v, "root", "./public", s.root)
    && BoolIs(v, "follow_symlinks", false, s.followSymlinks)
    && BoolIs(v, "directory_listing", false, s.directoryListing)
    && TextsAre(v, "index_files", ["index.html", "index.htm"], s.indexFiles)
  }

  lemma TextsRead(v: JsonValue, key: bytes, path: bytes, d: seq<bytes>, out: seq<bytes>)
    ensures (match v.Get(key) case None => Ok(d) case Some(x) => StringsOf(x, path)) == Ok(out)
            <==> TextsAre(v, key, d, out)
  {
    hide Lookup; hide StringsOf; hide ListIs;
    if v.Get(key).Some? {
      ListReads(v.Get(key).value, path, out);
    }
  }

  lemma StaticReads(v: JsonValue, s: StaticConfig)
    ensures ReadStatic(v, DEFAULT.staticFiles) == Ok(s) <==> StaticIs(v, s)
  {
    hide TextIs; hide BoolIs; hide TextsAre; hide ReadString; hide ReadBool; hide StringsOf; hide Lookup;
    var d := DEFAULT.staticFiles;
    TextReads(v, "root", d.root, "static", s.root);
    BoolReads(v, "follow_symlinks", d.followSymlinks, "static", s.followSymlinks);
    BoolReads(v, "directory_listing", d.directoryListing, "static", s.directoryListing);
    TextsRead(v, "index_files", "static.index_files", d.indexFiles, s.indexFiles);
  }

  predicate CompressionIs(v: JsonValue, s: CompressionConfig, other: NumeralReader) {
    BoolIs(v, "gzip", true, s.gzip) && NatIs(v, "min_bytes", 1024, s.minBytes, Numerals.U64_MAX, other)
  }

  lemma CompressionReads(v: JsonValue, s: CompressionConfig, other: NumeralReader)
    ensures ReadCompression(v, DEFAULT.compression, other) == Ok(s) <==> CompressionIs(v, s, other)
  {
    hide BoolIs; hide NatIs; hide ReadBool; hide ReadUsize;
    BoolReads(v, "gzip", true, "compression", s.gzip);
    NatReads(v, "min_bytes", 1024, "compression", other, s.minBytes);
  }

  predicate LimitIs(v: JsonValue, s: RateLimitConfig, other: NumeralReader) {
    && BoolIs(v, "enabled", true, s.enabled) && WideIs(v, "requests", 600, s.requests, other)
    && WideIs(v, "window_secs", 600, s.windowSecs, other) && WideIs(v, "ban_secs", 300, s.banSecs, other)
  }

  lemma LimitReads(v: JsonValue, s: RateLimitConfig, other: NumeralReader)
    ensures ReadRateLimit(v, DEFAULT.security.rateLimit, other) == Ok(s) <==> LimitIs(v, s, other)
  {
    hide BoolIs; hide WideIs; hide ReadBool; hide ReadU64;
    BoolReads(v, "enabled", true, "security.rate_limit", s.enabled);
    NatReads(v, "requests", 600, "security.rate_limit", other, s.requests);
    NatReads(v, "window_secs", 600, "security.rate_limit", other, s.windowSecs);
    NatReads(v, "ban_secs", 300, "security.rate_limit", other, s.banSecs);
  }

  predicate SecurityIs(v: JsonValue, s: SecurityConfig, other: NumeralReader) {
    && BoolIs(v, "enable_security_headers", false, s.enableSecurityHeaders)
    && (match v.Get("rate_limit")
        case None => s.rateLimit == RateLimitConfig(true, 600, 600, 300)
        case Some(limit) => LimitIs(limit, s.rateLimit, other))
    && TextsAre(v, "blocked_patterns", [], s.blockedPatterns)
  }

  lemma SecurityReads(v: JsonValue, s: SecurityConfig, other: NumeralReader)
    ensures ReadSecurity(v, DEFAULT.security, other) == Ok(s) <==> SecurityIs(v, s, other)
  {
    hide BoolIs; hide TextsAre; hide LimitIs; hide ReadBool; hide ReadRateLimit; hide StringsOf; hide Lookup;
    var d := DEFAULT.security;
    BoolReads(v, "enable_security_headers", d.enableSecurityHeaders, "security", s.enableSecurityHeaders);
    TextsRead(v, "blocked_patterns", "security.blocked_patterns", d.blockedPatterns, s.blockedPatterns);
    if v.Get("rate_limit").Some? {
      LimitReads(v.Get("rate_limit").value, s.rateLimit, other);
    }
  }

  predicate TlsIs(v: JsonValue, s: TlsConfig) {
    && BoolIs(v, "enabled", false, s.enabled) && TextIs(v, "cert_path", "", s.certPath)
    && TextIs(v, "key_path", "", s.keyPath)
  }

  lemma TlsReads(v: JsonValue, s: TlsConfig)
    ensures ReadTls(v, DEFAULT.tls) == Ok(s) <==> TlsIs(v, s)
  {
    hide BoolIs; hide TextIs; hide ReadBool; hide ReadString;
    BoolReads(v, "enabled", false, "tls", s.enabled);
    TextReads(v, "cert_path", "", "tls", s.certPath);
    TextReads(v, "key_path", "", "tls", s.keyPath);
  }

  predicate AdminIs(v: JsonValue, s: AdminConfig) {
    TextIs(v, "username", "", s.username) && TextIs(v, "password_sha256", "", s.passwordSha256)
  }

  lemma AdminReads(v: JsonValue, s: AdminConfig)
    ensures ReadAdmin(v, DEFAULT.admin) == Ok(s) <==> AdminIs(v, s)
  {
    hide TextIs; hide ReadString;
    TextReads(v, "username", "", "admin", s.username);
    TextReads(v, "password_sha256", "", "admin", s.passwordSha256);
  }

  predicate LoggingIs(v: JsonValue, s: LoggingConfig) {
    TextIs(v, "level", "info", s.level) && BoolIs(v, "access_log", true, s.accessLog)
  }

  lemma LoggingReads(v: JsonValue, s: LoggingConfig)
    ensures ReadLogging(v, DEFAULT.logging) == Ok(s) <==> LoggingIs(v, s)
  {
    hide TextIs; hide BoolIs; hide ReadString; hide ReadBool;
    TextReads(v, "level", "info", "logging", s.level);
    BoolReads(v, "access_log", true, "logging", s.accessLog);
  }

  // ----- the whole -----

  /** A section that is left out reads like an empty object: with every default. */
  function Part(root: JsonValue, key: bytes): JsonValue {
    match root.Get(key) case None => Object([]) case Some(v) => v
  }

  /** The configuration that a value describes. */
  predicate Describes(root: JsonValue, c: Config, other: NumeralReader) {
    && root.Object?
    && ServerIs(Part(root, "server"), c.server, other)
    && StaticIs(Part(root, "static"), c.staticFiles)
    && CompressionIs(Part(root, "compression"), c.compression, other)
    && SecurityIs(Part(root, "security"), c.security, other)
    && TlsIs(Part(root, "tls"), c.tls)
    && AdminIs(Part(root, "admin"), c.admin)
    && LoggingIs(Part(root, "logging"), c.logging)
    && PairsAre(Part(root, "mime_overrides"), c.mimeOverrides)
  }

  /** The rules that a configuration must keep. */
  predicate Sound(c: Config) {
    && c.server.port >= 1 && c.server.bind != "" && c.staticFiles.root != ""
    && (c.tls.enabled ==> c.tls.certPath != "" && c.tls.keyPath != "")
    && (c.logging.level == "error" || c.logging.level == "warn" || c.logging.level == "info"
        || c.logging.level == "debug" || c.logging.level == "trace")
  }

  /** The check passes what is sound, and otherwise names the first fault. */
  lemma ValidateIs(c: Config)
    ensures Validate(c).Ok? <==> Sound(c)
    ensures !Sound(c) ==>
              Validate(c).error.InvalidValue? && Validate(c).error.path ==
              if c.server.port == 0 then "server.port"
              else if c.server.bind == "" then "server.bind"
              else if c.staticFiles.root == "" then "static.root"
              else if c.tls.enabled && c.tls.certPath == "" then "tls.cert_path"
              else if c.tls.enabled && c.tls.keyPath == "" then "tls.key_path"
              else "logging.level"
  {
    LevelIs(c.logging.level);
  }

  lemma LevelIs(level: bytes)
    ensures level in LOG_LEVELS <==>
            level == "error" || level == "warn" || level == "info" || level == "debug" || level == "trace"
  {
    var l := LOG_LEVELS;
    assert l[0] == "error" && l[1] == "warn" && l[2] == "info" && l[3] == "debug" && l[4] == "trace";
  }

  // ----- section after section -----

  lemma NothingHeld(key: bytes)
    ensures Object([]).Get(key) == None
  {
  }

  lemma {:induction false} EmptyReads(other: NumeralReader)
    ensures ReadServer(Object([]), DEFAULT.server, other) == Ok(DEFAULT.server)
    ensures ReadStatic(Object([]), DEFAULT.staticFiles) == Ok(DEFAULT.staticFiles)
    ensures ReadCompression(Object([]), DEFAULT.compression, other) == Ok(DEFAULT.compression)
    ensures ReadSecurity(Object([]), DEFAULT.security, other) == Ok(DEFAULT.security)
    ensures ReadTls(Object([]), DEFAULT.tls) == Ok(DEFAULT.tls)
    ensures ReadAdmin(Object([]), DEFAULT.admin) == Ok(DEFAULT.admin)
    ensures ReadLogging(Object([]), DEFAULT.logging) == Ok(DEFAULT.logging)
    ensures PairsOf(Object([]), "mime_overrides") == Ok(DEFAULT.mimeOverrides)
  {
    hide AsU64;
    forall key: bytes ensures Lookup([], key) == None {
      NothingHeld(key);
    }
  }

  /** One step of the load: the part of its section is what the section says. */
  lemma StepServer(root: JsonValue, c: Config, s: ServerConfig, other: NumeralReader)
    requires c.server == DEFAULT.server
    ensures WithServer(root, c, other) == Ok(c.(server := s)) <==> ServerIs(Part(root, "server"), s, other)
  {
    hide Lookup; hide ServerIs; hide ReadServer;
    ServerReads(Part(root, "server"), s, other);
    EmptyReads(other);
  }

  lemma StepStatic(root: JsonValue, c: Config, s: StaticConfig, other: NumeralReader)
    requires c.staticFiles == DEFAULT.staticFiles
    ensures WithStatic(root, c) == Ok(c.(staticFiles := s)) <==> StaticIs(Part(root, "static"), s)
  {
    hide Lookup; hide StaticIs; hide ReadStatic;
    StaticReads(Part(root, "static"), s);
    EmptyReads(other);
  }

  lemma StepCompression(root: JsonValue, c: Config, s: CompressionConfig, other: NumeralReader)
    requires c.compression == DEFAULT.compression
    ensures WithCompression(root, c, other) == Ok(c.(compression := s))
            <==> CompressionIs(Part(root, "compression"), s, other)
  {
    hide Lookup; hide CompressionIs; hide ReadCompression;
    CompressionReads(Part(root, "compression"), s, other);
    EmptyReads(other);
  }

  lemma StepSecurity(root: JsonValue, c: Config, s: SecurityConfig, other: NumeralReader)
    requires c.security == DEFAULT.security
    ensures WithSecurity(root, c, other) == Ok(c.(security := s)) <==> SecurityIs(Part(root, "security"), s, other)
  {
    hide Lookup; hide SecurityIs; hide ReadSecurity;
    SecurityReads(Part(root, "security"), s, other);
    EmptyReads(other);
  }

  lemma StepTls(root: JsonValue, c: Config, s: TlsConfig, other: NumeralReader)
    requires c.tls == DEFAULT.tls
    ensures WithTls(root, c) == Ok(c.(tls := s)) <==> TlsIs(Part(root, "tls"), s)
  {
    hide Lookup; hide TlsIs; hide ReadTls;
    TlsReads(Part(root, "tls"), s);
    EmptyReads(other);
  }

  lemma StepAdmin(root: JsonValue, c: Config, s: AdminConfig, other: NumeralReader)
    requires c.admin == DEFAULT.admin
    ensures WithAdmin(root, c) == Ok(c.(admin := s)) <==> AdminIs(Part(root, "admin"), s)
  {
    hide Lookup; hide AdminIs; hide ReadAdmin;
    AdminReads(Part(root, "admin"), s);
    EmptyReads(other);
  }

  lemma StepLogging(root: JsonValue, c: Config, s: LoggingConfig, other: NumeralReader)
    requires c.logging == DEFAULT.logging
    ensures WithLogging(root, c) == Ok(c.(logging := s)) <==> LoggingIs(Part(root, "logging"), s)
  {
    hide Lookup; hide LoggingIs; hide ReadLogging;
    LoggingReads(Part(root, "logging"), s);
    EmptyReads(other);
  }

  lemma StepMime(root: JsonValue, c: Config, s: seq<(bytes, bytes)>, other: NumeralReader)
    requires c.mimeOverrides == DEFAULT.mimeOverrides
    ensures WithMimeOverrides(root, c) == Ok(c.(mimeOverrides := s)) <==> PairsAre(Part(root, "mime_overrides"), s)
  {
    hide Lookup; hide PairsAre; hide PairsOf;
    PairsRead(Part(root, "mime_overrides"), "mime_overrides", s);
    EmptyReads(other);
  }

  /** Each step changes its own part only. */
  lemma StepsStandAlone(root: JsonValue, c: Config, other: NumeralReader)
    ensures var r := WithServer(root, c, other); r.Ok? ==> r.value == c.(server := r.value.server)
    ensures var r := WithStatic(root, c); r.Ok? ==> r.value == c.(staticFiles := r.value.staticFiles)
    ensures var r := WithCompression(root, c, other); r.Ok? ==> r.value == c.(compression := r.value.compression)
    ensures var r := WithSecurity(root, c, other); r.Ok? ==> r.value == c.(security := r.value.security)
    ensures var r := WithTls(root, c); r.Ok? ==> r.value == c.(tls := r.value.tls)
    ensures var r := WithAdmin(root, c); r.Ok? ==> r.value == c.(admin := r.value.admin)
    ensures var r := WithLogging(root, c); r.Ok? ==> r.value == c.(logging := r.value.logging)
    ensures var r := WithMimeOverrides(root, c); r.Ok? ==> r.value == c.(mimeOverrides := r.value.mimeOverrides)
  {
    hide Lookup; hide ReadServer; hide ReadStatic; hide ReadCompression; hide ReadSecurity; hide ReadTls;
    hide ReadAdmin; hide ReadLogging; hide PairsOf;
  }

  /** What the load has built after each of its first steps, towards `c`. */
  function Built(c: Config, n: nat): Config {
    var c1 := if n >= 1 then DEFAULT.(server := c.server) else DEFAULT;
    var c2 := if n >= 2 then c1.(staticFiles := c.staticFiles) else c1;
    var c3 := if n >= 3 then c2.(compression := c.compression) else c2;
    var c4 := if n >= 4 then c3.(security := c.security) else c3;
    var c5 := if n >= 5 then c4.(tls := c.tls) else c4;
    var c6 := if n >= 6 then c5.(admin := c.admin) else c5;
    var c7 := if n >= 7 then c6.(logging := c.logging) else c6;
    if n >= 8 then c7.(mimeOverrides := c.mimeOverrides) else c7
  }

  lemma DescribedLoads(root: JsonValue, c: Config, other: NumeralReader)
    requires Describes(root, c, other) && Sound(c)
    ensures FromJson(root, other) == Ok(c)
  {
    hide WithServer; hide WithStatic; hide WithCompression; hide WithSecurity; hide WithTls; hide WithAdmin;
    hide WithLogging; hide WithMimeOverrides; hide Validate; hide Sound; hide ServerIs; hide StaticIs;
    hide CompressionIs; hide SecurityIs; hide TlsIs; hide AdminIs; hide LoggingIs; hide PairsAre; hide Part;
    StepServer(root, DEFAULT, c.server, other);
    StepStatic(root, Built(c, 1), c.staticFiles, other);
    StepCompression(root, Built(c, 2), c.compression, other);
    StepSecurity(root, Built(c, 3), c.security, other);
    StepTls(root, Built(c, 4), c.tls, other);
    StepAdmin(root, Built(c, 5), c.admin, other);
    StepLogging(root, Built(c, 6), c.logging, other);
    StepMime(root, Built(c, 7), c.mimeOverrides, other);
    assert Built(c, 8) == c;
    ValidateIs(c);
  }

  lemma LoadedIsDescribed(root: JsonValue, c: Config, other: NumeralReader)
    requires FromJson(root, other) == Ok(c)
    ensures Describes(root, c, other) && Sound(c)
  {
    hide WithServer; hide WithStatic; hide WithCompression; hide WithSecurity; hide WithTls; hide WithAdmin;
    hide WithLogging; hide WithMimeOverrides; hide Validate; hide Sound; hide ServerIs; hide StaticIs;
    hide CompressionIs; hide SecurityIs; hide TlsIs; hide AdminIs; hide LoggingIs; hide PairsAre; hide Part;
    var c1 := WithServer(root, DEFAULT, other).value;
    var c2 := WithStatic(root, c1).value;
    var c3 := WithCompression(root, c2, other).value;
    var c4 := WithSecurity(root, c3, other).value;
    var c5 := WithTls(root, c4).value;
    var c6 := WithAdmin(root, c5).value;
    var c7 := WithLogging(root, c6).value;
    StepsStandAlone(root, DEFAULT, other);
    StepsStandAlone(root, c1, other);
    StepsStandAlone(root, c2, other);
    StepsStandAlone(root, c3, other);
    StepsStandAlone(root, c4, other);
    StepsStandAlone(root, c5, other);
    StepsStandAlone(root, c6, other);
    StepsStandAlone(root, c7, other);
    StepServer(root, DEFAULT, c1.server, other);
    StepStatic(root, c1, c2.staticFiles, other);
    StepCompression(root, c2, c3.compression, other);
    StepSecurity(root, c3, c4.security, other);
    StepTls(root, c4, c5.tls, other);
    StepAdmin(root, c5, c6.admin, other);
    StepLogging(root, c6, c7.logging, other);
    StepMime(root, c7, c.mimeOverrides, other);
    ValidateIs(c);
  }

  /** A value loads as a configuration exactly if it describes it, every setting that is
      there with its own type and within its width and every other with its default, and
      the configuration is sound. */
  lemma LoadsExactly(root: JsonValue, c: Config, other: NumeralReader)
    ensures FromJson(root, other) == Ok(c) <==> Describes(root, c, other) && Sound(c)
  {
    hide FromJson; hide Describes; hide Sound;
    if FromJson(root, other) == Ok(c) {
      LoadedIsDescribed(root, c, other);
    }
    if Describes(root, c, other) && Sound(c) {
      DescribedLoads(root, c, other);
    }
  }

  // ----- what is refused -----

  /** A setting of the wrong type is named with its section. */
  lemma WrongTypeIsNamed(v: JsonValue, key: bytes, path: bytes, other: NumeralReader)
    requires v.Get(key).Some?
    ensures !v.Get(key).value.Bool? ==> forall d :: ReadBool(v, key, d, path) == Err(WrongType(path + "." + key))
    ensures !v.Get(key).value.String? ==> forall d :: ReadString(v, key, d, path) == Err(WrongType(path + "." + key))
    ensures AsU64(v.Get(key).value, other).None? ==>
              forall d: nat :: ReadU64(v, key, d, path, other) == Err(WrongType(path + "." + key))
    ensures AsU64(v.Get(key).value, other).Some? && AsU64(v.Get(key).value, other).value > 65535 ==>
              forall d: nat :: ReadU16(v, key, d, path, other) == Err(InvalidValue(path + "." + key, "must be 1-65535"))
  {
    hide Lookup; hide AsU64;
  }
}
