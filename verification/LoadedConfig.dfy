/** Every configuration that loads is saved and loaded again unchanged. */
module LoadedConfig {
  import opened Bytes
  import Ascii
  import opened Numerals
  import opened Utf8
  import opened Json
  import opened JsonText
  import JsonUnicode
  import opened Doubles
  import opened Configuration
  import ConfigText
  import opened ConfigRoundTrip

  // ----- parsed strings are UTF-8 -----

  lemma LeadWidthOfConcat(a: bytes, b: bytes)
    requires LeadWidth(a) > 0
    ensures LeadWidth(a + b) == LeadWidth(a)
  {
  }

  lemma {:induction false} ValidConcat(a: bytes, b: bytes)
    requires ValidUtf8(a) && ValidUtf8(b)
    ensures ValidUtf8(a + b)
  {
    hide LeadWidth;
    if a == [] {
      assert a + b == b;
    } else {
      var w := LeadWidth(a);
      LeadWidthOfConcat(a, b);
      ValidConcat(a[w..], b);
      assert (a + b)[w..] == a[w..] + b;
    }
  }

  lemma StepIsText(s: bytes, p: nat)
    requires p <= |s|
    ensures var r := StringStep(s, p); r.Ok? && r.value.0.Some? ==> ValidUtf8(r.value.0.value)
  {
    hide LeadWidth; hide EncodeScalar; hide Hex4;
    if p + 1 <= |s| && s[p] == '\\' && EscapeAt(s, p + 1).Ok? {
      EscapeIsText(s, p + 1);
    }
  }

  lemma EscapeIsText(s: bytes, p: nat)
    requires p <= |s| && EscapeAt(s, p).Ok?
    ensures ValidUtf8(EscapeAt(s, p).value.0)
  {
    hide Hex4; hide EncodeScalar; hide ValidUtf8;
    if s[p] == 'u' {
      UnicodeIsText(s, p + 1);
    } else {
      AsciiIsValid(EscapeAt(s, p).value.0);
    }
  }

  lemma UnicodeIsText(s: bytes, p: nat)
    requires p <= |s| && UnicodeEscapeAt(s, p).Ok?
    ensures ValidUtf8(UnicodeEscapeAt(s, p).value.0)
  {
    hide Hex4; hide EncodeScalar; hide ValidUtf8;
    var (first, q) := Hex4(s, p, 4, 0).value;
    if 0xD800 <= first <= 0xDBFF {
      var low := Hex4(s, q + 2, 4, 0).value.0;
      JsonUnicode.EncodingIsValid(0x10000 + (first - 0xD800) * 1024 + (low - 0xDC00));
    } else {
      JsonUnicode.EncodingIsValid(first);
    }
  }

  lemma {:induction false} StringIsText(s: bytes, p: nat, out: bytes)
    requires p <= |s| && ValidUtf8(out)
    ensures StringFrom(s, p, out).Ok? ==> ValidUtf8(StringFrom(s, p, out).value.0)
    decreases |s| - p
  {
    hide StringStep; hide ValidUtf8;
    StepIsText(s, p);
    var step := StringStep(s, p);
    if step.Ok? && step.value.0.Some? {
      ValidConcat(out, step.value.0.value);
      StringIsText(s, step.value.1, out + step.value.0.value);
    }
  }

  /** A value all of whose strings are UTF-8. */
  predicate TextOnly(v: JsonValue) {
    match v
    case String(s) => ValidUtf8(s)
    case Array(items) => forall i :: 0 <= i < |items| ==> TextOnly(items[i])
    case Object(members) => forall i :: 0 <= i < |members| ==> ValidUtf8(members[i].0) && TextOnly(members[i].1)
    case _ => true
  }

  ghost predicate ReadsText(r: Parsed<JsonValue>) {
    r.Ok? ==> TextOnly(r.value.0)
  }

  lemma StringAtIsText(s: bytes, p: nat)
    requires p <= |s|
    ensures StringAt(s, p).Ok? ==> ValidUtf8(StringAt(s, p).value.0)
  {
    hide StringFrom;
    if At(s, p, '"') {
      StringIsText(s, p + 1, []);
    }
  }

  /** Whatever parses is text. */
  lemma {:induction false} ValueIsText(s: bytes, p: nat, depth: nat)
    requires p <= |s|
    ensures ReadsText(ValueAt(s, p, depth))
    decreases |s| - p, 2
  {
    hide StringAt; hide NumberAt; hide ObjectAt; hide ArrayAt; hide ValidUtf8;
    if p < |s| {
      if s[p] == '{' {
        ObjectIsText(s, p, depth);
      } else if s[p] == '[' {
        ArrayIsText(s, p, depth);
      } else if s[p] == '"' {
        StringAtIsText(s, p);
      } else if s[p] == '-' || Ascii.IsDigit(s[p]) {
        NumberIsText(s, p);
      }
    }
  }

  lemma NumberIsText(s: bytes, p: nat)
    requires p <= |s|
    ensures ReadsText(NumberAt(s, p))
  {
    hide DigitsEnd;
  }

  lemma {:induction false} ObjectIsText(s: bytes, p: nat, depth: nat)
    requires p <= |s|
    ensures ReadsText(ObjectAt(s, p, depth))
    decreases |s| - p, 1
  {
    hide MembersFrom; hide SkipWs; hide ValidUtf8;
    if depth + 1 <= MAX_DEPTH && At(s, p, '{') {
      MembersAreText(s, SkipWs(s, p + 1), depth, []);
    }
  }

  lemma {:induction false} MembersAreText(s: bytes, p: nat, depth: nat, members: seq<(bytes, JsonValue)>)
    requires p <= |s| && TextOnly(Object(members))
    ensures ReadsText(MembersFrom(s, p, depth, members))
    decreases |s| - p, 4
  {
    hide MemberAt; hide SkipWs; hide ValidUtf8;
    MemberIsText(s, p, depth + 1);
    var r := MemberAt(s, p, depth + 1);
    if r.Ok? {
      assert TextOnly(Object(members + [r.value.0]));
      if At(s, r.value.1, ',') {
        MembersAreText(s, r.value.1 + 1, depth, members + [r.value.0]);
      }
    }
  }

  lemma {:induction false} MemberIsText(s: bytes, p: nat, depth: nat)
    requires p <= |s|
    ensures var r := MemberAt(s, p, depth); r.Ok? ==> ValidUtf8(r.value.0.0) && TextOnly(r.value.0.1)
    decreases |s| - p, 3
  {
    hide StringAt; hide ValueAt; hide SkipWs; hide ValidUtf8; hide TextOnly;
    var q := SkipWs(s, p);
    StringAtIsText(s, q);
    var key := StringAt(s, q);
    if key.Ok? {
      var colon := Json.Expect(s, SkipWs(s, key.value.1), ':');
      if colon.Ok? {
        ValueIsText(s, SkipWs(s, colon.value.1), depth);
      }
    }
  }

  lemma {:induction false} ArrayIsText(s: bytes, p: nat, depth: nat)
    requires p <= |s|
    ensures ReadsText(ArrayAt(s, p, depth))
    decreases |s| - p, 1
  {
    hide ItemsFrom; hide SkipWs;
    if depth + 1 <= MAX_DEPTH && At(s, p, '[') {
      ItemsAreText(s, SkipWs(s, p + 1), depth, []);
    }
  }

  lemma {:induction false} ItemsAreText(s: bytes, p: nat, depth: nat, items: seq<JsonValue>)
    requires p <= |s| && TextOnly(Array(items))
    ensures ReadsText(ItemsFrom(s, p, depth, items))
    decreases |s| - p, 4
  {
    hide ValueAt; hide SkipWs;
    ValueIsText(s, SkipWs(s, p), depth + 1);
    var r := ValueAt(s, SkipWs(s, p), depth + 1);
    if r.Ok? {
      var q := SkipWs(s, r.value.1);
      assert TextOnly(Array(items + [r.value.0]));
      if At(s, q, ',') {
        ItemsAreText(s, q + 1, depth, items + [r.value.0]);
      }
    }
  }

  // ----- what the readers keep -----

  /** An integer as it comes out of a double. */
  predicate IsLoaded(n: nat) {
    n <= U64_MAX && Survives(n)
  }

  /** Numerals of any other form are also read through a double. */
  ghost predicate ReadsDoubles(other: NumeralReader) {
    forall text :: other(text).Some? ==> IsLoaded(other(text).value)
  }

  lemma NumberIsLoaded(v: JsonValue, other: NumeralReader)
    requires ReadsDoubles(other)
    ensures AsU64(v, other).Some? ==> IsLoaded(AsU64(v, other).value)
  {
    hide Rounded; hide Value;
    if v.Number? && !AllDigits(v.text) {
      assert other(v.text).Some? ==> IsLoaded(other(v.text).value);
    }
  }

  lemma {:induction false} LookupIsText(members: seq<(bytes, JsonValue)>, key: bytes)
    requires forall i :: 0 <= i < |members| ==> TextOnly(members[i].1)
    ensures Lookup(members, key).Some? ==> TextOnly(Lookup(members, key).value)
  {
    hide TextOnly;
    if members != [] {
      LookupIsText(members[1..], key);
    }
  }

  lemma MemberOf(v: JsonValue, key: bytes)
    requires TextOnly(v)
    ensures v.Get(key).Some? ==> TextOnly(v.Get(key).value)
  {
    hide Lookup; hide ValidUtf8;
    if v.Object? {
      LookupIsText(v.members, key);
    }
  }

  lemma StringKept(v: JsonValue, key: bytes, slot: bytes, path: bytes)
    requires TextOnly(v) && ValidUtf8(slot)
    ensures var r := ReadString(v, key, slot, path); r.Ok? ==> ValidUtf8(r.value)
  {
    hide ValidUtf8;
    MemberOf(v, key);
  }

  lemma NatKept(v: JsonValue, key: bytes, slot: nat, path: bytes, other: NumeralReader)
    requires ReadsDoubles(other) && IsLoaded(slot)
    ensures var r := ReadU64(v, key, slot, path, other); r.Ok? ==> IsLoaded(r.value)
    ensures var r := ReadUsize(v, key, slot, path, other); r.Ok? ==> IsLoaded(r.value)
    ensures var r := ReadU16(v, key, slot, path, other); r.Ok? && slot <= U16_MAX ==> r.value <= U16_MAX
  {
    hide Lookup; hide AsU64; hide IsLoaded;
    var member := v.Get(key);
    if member.Some? {
      NumberIsLoaded(member.value, other);
    }
  }

  lemma {:induction false} StringsKept(items: seq<JsonValue>, i: nat, path: bytes)
    requires i <= |items| && TextOnly(Array(items))
    ensures var r := StringsFrom(items, i, path); r.Ok? ==> AllUtf8(r.value)
    decreases |items| - i
  {
    hide ValidUtf8; hide Dec;
    if i < |items| && items[i].String? {
      StringsKept(items, i + 1, path);
      assert TextOnly(items[i]);
    }
  }

  lemma ArrayKept(v: JsonValue, path: bytes)
    requires TextOnly(v)
    ensures var r := StringsOf(v, path); r.Ok? ==> AllUtf8(r.value)
  {
    hide StringsFrom; hide AllUtf8; hide TextOnly;
    if v.Array? {
      StringsKept(v.items, 0, path);
    }
  }

  predicate PairsAreText(pairs: seq<(bytes, bytes)>) {
    forall i :: 0 <= i < |pairs| ==> ValidUtf8(pairs[i].0) && ValidUtf8(pairs[i].1)
  }

  lemma {:induction false} PairsKept(members: seq<(bytes, JsonValue)>, i: nat, path: bytes)
    requires i <= |members| && TextOnly(Object(members))
    ensures var r := PairsFrom(members, i, path); r.Ok? ==> PairsAreText(r.value)
    decreases |members| - i
  {
    hide ValidUtf8;
    if i < |members| && members[i].1.String? {
      PairsKept(members, i + 1, path);
      assert ValidUtf8(members[i].0) && TextOnly(members[i].1);
    }
  }

  // ----- sections -----

  lemma ServerKept(v: JsonValue, d: ServerConfig, other: NumeralReader)
    requires TextOnly(v) && ReadsDoubles(other) && ReadServer(v, d, other).Ok?
    requires ValidUtf8(d.bind) && d.port <= U16_MAX && IsLoaded(d.workerThreads) && IsLoaded(d.maxConnections)
    requires IsLoaded(d.keepAliveSecs) && IsLoaded(d.readTimeoutSecs) && IsLoaded(d.requestMaxBytes) && IsLoaded(d.port)
    ensures var s := ReadServer(v, d, other).value;
            && ValidUtf8(s.bind) && s.port <= U16_MAX && IsLoaded(s.workerThreads) && IsLoaded(s.maxConnections)
            && IsLoaded(s.keepAliveSecs) && IsLoaded(s.readTimeoutSecs) && IsLoaded(s.requestMaxBytes)
  {
    hide TextOnly; hide ReadsDoubles; hide ReadString; hide ReadU16; hide ReadU64; hide ReadUsize; hide ValidUtf8;
    hide IsLoaded;
    StringKept(v, "bind", d.bind, "server");
    NatKept(v, "port", d.port, "server", other);
    NatKept(v, "worker_threads", d.workerThreads, "server", other);
    NatKept(v, "max_connections", d.maxConnections, "server", other);
    NatKept(v, "keep_alive_secs", d.keepAliveSecs, "server", other);
    NatKept(v, "read_timeout_secs", d.readTimeoutSecs, "server", other);
    NatKept(v, "request_max_bytes", d.requestMaxBytes, "server", other);
  }

  lemma StaticKept(v: JsonValue, d: StaticConfig)
    requires TextOnly(v) && ReadStatic(v, d).Ok? && ValidUtf8(d.root) && AllUtf8(d.indexFiles)
    ensures var s := ReadStatic(v, d).value; ValidUtf8(s.root) && AllUtf8(s.indexFiles)
  {
    hide TextOnly; hide ReadString; hide ReadBool; hide ValidUtf8; hide AllUtf8; hide StringsOf; hide Lookup;
    StringKept(v, "root", d.root, "static");
    MemberOf(v, "index_files");
    if v.Get("index_files").Some? {
      ArrayKept(v.Get("index_files").value, "static.index_files");
    }
  }

  lemma RateLimitKept(v: JsonValue, d: RateLimitConfig, other: NumeralReader)
    requires ReadsDoubles(other) && ReadRateLimit(v, d, other).Ok?
    requires IsLoaded(d.requests) && IsLoaded(d.windowSecs) && IsLoaded(d.banSecs)
    ensures var l := ReadRateLimit(v, d, other).value;
            IsLoaded(l.requests) && IsLoaded(l.windowSecs) && IsLoaded(l.banSecs)
  {
    hide ReadsDoubles; hide ReadBool; hide ReadU64; hide IsLoaded;
    NatKept(v, "requests", d.requests, "security.rate_limit", other);
    NatKept(v, "window_secs", d.windowSecs, "security.rate_limit", other);
    NatKept(v, "ban_secs", d.banSecs, "security.rate_limit", other);
  }

  lemma SecurityKept(v: JsonValue, d: SecurityConfig, other: NumeralReader)
    requires TextOnly(v) && ReadsDoubles(other) && ReadSecurity(v, d, other).Ok? && AllUtf8(d.blockedPatterns)
    requires IsLoaded(d.rateLimit.requests) && IsLoaded(d.rateLimit.windowSecs) && IsLoaded(d.rateLimit.banSecs)
    ensures var s := ReadSecurity(v, d, other).value;
            && AllUtf8(s.blockedPatterns)
            && IsLoaded(s.rateLimit.requests) && IsLoaded(s.rateLimit.windowSecs) && IsLoaded(s.rateLimit.banSecs)
  {
    hide TextOnly; hide ReadsDoubles; hide ReadBool; hide ReadRateLimit; hide AllUtf8; hide StringsOf; hide Lookup;
    hide IsLoaded;
    MemberOf(v, "blocked_patterns");
    if v.Get("rate_limit").Some? {
      RateLimitKept(v.Get("rate_limit").value, d.rateLimit, other);
    }
    if v.Get("blocked_patterns").Some? {
      ArrayKept(v.Get("blocked_patterns").value, "security.blocked_patterns");
    }
  }

  lemma TlsKept(v: JsonValue, d: TlsConfig)
    requires TextOnly(v) && ReadTls(v, d).Ok? && ValidUtf8(d.certPath) && ValidUtf8(d.keyPath)
    ensures var t := ReadTls(v, d).value; ValidUtf8(t.certPath) && ValidUtf8(t.keyPath)
  {
    hide TextOnly; hide ReadString; hide ReadBool; hide ValidUtf8;
    StringKept(v, "cert_path", d.certPath, "tls");
    StringKept(v, "key_path", d.keyPath, "tls");
  }

  lemma AdminKept(v: JsonValue, d: AdminConfig)
    requires TextOnly(v) && ReadAdmin(v, d).Ok? && ValidUtf8(d.username) && ValidUtf8(d.passwordSha256)
    ensures var a := ReadAdmin(v, d).value; ValidUtf8(a.username) && ValidUtf8(a.passwordSha256)
  {
    hide TextOnly; hide ReadString; hide ValidUtf8;
    StringKept(v, "username", d.username, "admin");
    StringKept(v, "password_sha256", d.passwordSha256, "admin");
  }

  /** Configurations that a load can produce, validation aside. */
  predicate Loaded(c: Config) {
    InWidth(c) && IsText(c) && NumbersSurvive(c)
  }

  lemma DefaultIsLoaded()
    ensures Loaded(DEFAULT)
  {
    hide ValidUtf8; hide IsText; hide Survives;
    DefaultIsText();
    var c := DEFAULT;
    SmallSurvives(c.server.workerThreads);
    SmallSurvives(c.server.maxConnections);
    SmallSurvives(c.server.keepAliveSecs);
    SmallSurvives(c.server.readTimeoutSecs);
    SmallSurvives(c.server.requestMaxBytes);
    SmallSurvives(c.compression.minBytes);
    SmallSurvives(c.security.rateLimit.requests);
    SmallSurvives(c.security.rateLimit.windowSecs);
    SmallSurvives(c.security.rateLimit.banSecs);
  }

  ghost predicate Keeps(r: Read<Config>) {
    r.Ok? ==> Loaded(r.value)
  }

  lemma NumericSectionsKept(root: JsonValue, c: Config, other: NumeralReader)
    requires TextOnly(root) && ReadsDoubles(other) && Loaded(c)
    ensures Keeps(WithServer(root, c, other)) && Keeps(WithCompression(root, c, other))
            && Keeps(WithSecurity(root, c, other))
  {
    hide TextOnly; hide ReadsDoubles; hide Survives; hide ValidUtf8; hide AllUtf8; hide ReadServer; hide ReadSecurity;
    hide ReadBool; hide Lookup; hide ReadUsize;
    MemberOf(root, "server");
    MemberOf(root, "compression");
    MemberOf(root, "security");
    var server := root.Get("server");
    if server.Some? && ReadServer(server.value, c.server, other).Ok? {
      SmallSurvives(c.server.port);
      ServerKept(server.value, c.server, other);
    }
    var compression := root.Get("compression");
    if compression.Some? {
      NatKept(compression.value, "min_bytes", c.compression.minBytes, "compression", other);
    }
    var security := root.Get("security");
    if security.Some? && ReadSecurity(security.value, c.security, other).Ok? {
      SecurityKept(security.value, c.security, other);
    }
  }

  lemma TextSectionsKept(root: JsonValue, c: Config)
    requires TextOnly(root) && Loaded(c)
    ensures Keeps(WithStatic(root, c)) && Keeps(WithTls(root, c)) && Keeps(WithAdmin(root, c))
            && Keeps(WithLogging(root, c))
    ensures Keeps(WithMimeOverrides(root, c))
  {
    hide TextOnly; hide Survives; hide ValidUtf8; hide AllUtf8; hide ReadStatic; hide ReadTls; hide ReadAdmin;
    hide PairsFrom;
    hide ReadBool; hide ReadString; hide Lookup;
    MemberOf(root, "static");
    MemberOf(root, "tls");
    MemberOf(root, "admin");
    MemberOf(root, "logging");
    MemberOf(root, "mime_overrides");
    var files := root.Get("static");
    if files.Some? && ReadStatic(files.value, c.staticFiles).Ok? {
      StaticKept(files.value, c.staticFiles);
    }
    var tls := root.Get("tls");
    if tls.Some? && ReadTls(tls.value, c.tls).Ok? {
      TlsKept(tls.value, c.tls);
    }
    var admin := root.Get("admin");
    if admin.Some? && ReadAdmin(admin.value, c.admin).Ok? {
      AdminKept(admin.value, c.admin);
    }
    var logging := root.Get("logging");
    if logging.Some? {
      StringKept(logging.value, "level", c.logging.level, "logging");
    }
    var mime := root.Get("mime_overrides");
    if mime.Some? && mime.value.Object? {
      PairsKept(mime.value.members, 0, "mime_overrides");
    }
  }

  lemma FromJsonKeeps(root: JsonValue, other: NumeralReader)
    requires TextOnly(root) && ReadsDoubles(other)
    ensures Keeps(FromJson(root, other))
    ensures FromJson(root, other).Ok? ==> Validate(FromJson(root, other).value).Ok?
  {
    hide TextOnly; hide ReadsDoubles; hide Loaded; hide Validate; hide WithServer; hide WithStatic;
    hide WithCompression;
    hide WithSecurity; hide WithTls; hide WithAdmin; hide WithLogging; hide WithMimeOverrides;
    if FromJson(root, other).Ok? {
      DefaultIsLoaded();
      NumericSectionsKept(root, DEFAULT, other);
      var c1 := WithServer(root, DEFAULT, other).value;
      TextSectionsKept(root, c1);
      var c2 := WithStatic(root, c1).value;
      NumericSectionsKept(root, c2, other);
      var c3 := WithCompression(root, c2, other).value;
      NumericSectionsKept(root, c3, other);
      var c4 := WithSecurity(root, c3, other).value;
      TextSectionsKept(root, c4);
      var c5 := WithTls(root, c4).value;
      TextSectionsKept(root, c5);
      var c6 := WithAdmin(root, c5).value;
      TextSectionsKept(root, c6);
      var c7 := WithLogging(root, c6).value;
      TextSectionsKept(root, c7);
    }
  }

  /** Whatever text a configuration was loaded from, saving it and loading the
      saved text gives the same configuration. */
  lemma LoadedIsStable(text: bytes, other: NumeralReader)
    requires ReadsDoubles(other) && FromJsonStr(text, other).Ok?
    ensures var c := FromJsonStr(text, other).value;
            FromJsonStr(Text(ConfigText.ConfigDoc(c)) + "\n", other) == Ok(c)
  {
    hide TextOnly; hide ReadsDoubles; hide FromJson; hide Validate; hide Text; hide ConfigText.ConfigDoc;
    hide InWidth; hide IsText; hide NumbersSurvive;
    DocumentIsText(text);
    var root := ParseDocument(text).value;
    FromJsonKeeps(root, other);
    SavedLoads(FromJsonStr(text, other).value, other);
  }

  lemma DocumentIsText(text: bytes)
    ensures ParseDocument(text).Ok? ==> TextOnly(ParseDocument(text).value)
  {
    hide ValueAt; hide SkipWs; hide TextOnly;
    ValueIsText(text, SkipWs(text, 0), 0);
  }

  // ----- what a text leaves out -----

  /** Reading a section changes that section, and only if it is there. */
  lemma SectionsStandAlone(root: JsonValue, c: Config, other: NumeralReader)
    ensures var r := WithServer(root, c, other);
            r.Ok? ==> r.value == c.(server := r.value.server) && (root.Get("server").None? ==> r.value == c)
    ensures var r := WithStatic(root, c);
            r.Ok? ==> r.value == c.(staticFiles := r.value.staticFiles) && (root.Get("static").None? ==> r.value == c)
    ensures var r := WithCompression(root, c, other);
            r.Ok? ==>
              r.value == c.(compression := r.value.compression) && (root.Get("compression").None? ==> r.value == c)
    ensures var r := WithSecurity(root, c, other);
            r.Ok? ==> r.value == c.(security := r.value.security) && (root.Get("security").None? ==> r.value == c)
    ensures var r := WithTls(root, c);
            r.Ok? ==> r.value == c.(tls := r.value.tls) && (root.Get("tls").None? ==> r.value == c)
    ensures var r := WithAdmin(root, c);
            r.Ok? ==> r.value == c.(admin := r.value.admin) && (root.Get("admin").None? ==> r.value == c)
    ensures var r := WithLogging(root, c);
            r.Ok? ==> r.value == c.(logging := r.value.logging) && (root.Get("logging").None? ==> r.value == c)
    ensures var r := WithMimeOverrides(root, c);
            r.Ok? ==>
              && r.value == c.(mimeOverrides := r.value.mimeOverrides)
              && (root.Get("mime_overrides").None? ==> r.value == c)
  {
    hide Lookup; hide ReadServer; hide ReadStatic; hide ReadCompression; hide ReadSecurity; hide ReadTls;
    hide ReadAdmin; hide ReadLogging; hide PairsOf;
  }

  /** A section that is not there keeps its default. */
  lemma OmittedSectionsKeepDefaults(root: JsonValue, other: NumeralReader)
    requires FromJson(root, other).Ok?
    ensures var c := FromJson(root, other).value;
            && (root.Get("server").None? ==> c.server == DEFAULT.server)
            && (root.Get("static").None? ==> c.staticFiles == DEFAULT.staticFiles)
            && (root.Get("compression").None? ==> c.compression == DEFAULT.compression)
            && (root.Get("security").None? ==> c.security == DEFAULT.security)
            && (root.Get("tls").None? ==> c.tls == DEFAULT.tls)
            && (root.Get("admin").None? ==> c.admin == DEFAULT.admin)
            && (root.Get("logging").None? ==> c.logging == DEFAULT.logging)
            && (root.Get("mime_overrides").None? ==> c.mimeOverrides == DEFAULT.mimeOverrides)
  {
    hide Lookup; hide Validate; hide WithServer; hide WithStatic; hide WithCompression; hide WithSecurity; hide WithTls;
    hide WithAdmin; hide WithLogging; hide WithMimeOverrides;
    SectionsStandAlone(root, DEFAULT, other);
    var c1 := WithServer(root, DEFAULT, other).value;
    SectionsStandAlone(root, c1, other);
    var c2 := WithStatic(root, c1).value;
    SectionsStandAlone(root, c2, other);
    var c3 := WithCompression(root, c2, other).value;
    SectionsStandAlone(root, c3, other);
    var c4 := WithSecurity(root, c3, other).value;
    SectionsStandAlone(root, c4, other);
    var c5 := WithTls(root, c4).value;
    SectionsStandAlone(root, c5, other);
    var c6 := WithAdmin(root, c5).value;
    SectionsStandAlone(root, c6, other);
    var c7 := WithLogging(root, c6).value;
    SectionsStandAlone(root, c7, other);
  }

  /** The empty object, in any layout, loads the default configuration. */
  lemma EmptyObjectLoadsDefaults(before: bytes, blank: bytes, after: bytes, other: NumeralReader)
    requires AllSpace(before) && AllSpace(blank) && AllSpace(after)
    ensures FromJsonStr(before + ("{" + (blank + "}")) + after, other) == Ok(DEFAULT)
  {
    hide ParseDocument; hide AllSpace; hide FromJson;
    var d := ObjectDoc(blank, NoMembers);
    DocumentReads(before, d, after);
    assert Text(d) == "{" + (blank + "}") && Depth(d) == 1 && ValueOf(d) == Object([]);
    EmptyIsDefault(other);
  }

  lemma EmptyIsDefault(other: NumeralReader)
    ensures FromJson(Object([]), other) == Ok(DEFAULT)
  {
    var root := Object([]);
    assert DEFAULT.logging.level == LOG_LEVELS[2];
    assert WithServer(root, DEFAULT, other) == Ok(DEFAULT);
  }
}
