/** Saving and loading a configuration. */
module ConfigRoundTrip {
  import opened Bytes
  import opened Numerals
  import opened Utf8
  import opened Json
  import JsonNumerals
  import opened JsonStrings
  import opened JsonText
  import opened Doubles
  import opened Configuration
  import opened ConfigText

  // ----- what a section's document denotes -----

  function EntryValues(entries: seq<Entry>): seq<(bytes, JsonValue)> {
    seq(|entries|, i requires 0 <= i < |entries| => (entries[i].0, ValueOf(entries[i].1)))
  }

  lemma TextDenotes(s: bytes)
    ensures ValueOf(TextDoc(s)) == String(s)
  {
    hide Spelled; hide Canonical; hide MeaningOf;
    CanonicalIsQuoted(s);
  }

  lemma NatDenotes(n: nat)
    ensures ValueOf(NatDoc(n)) == Number(Dec(n))
  {
    hide Print;
    assert "" + (Dec(n) + ("" + "")) == Dec(n);
  }

  lemma {:induction false} FieldsDenote(indent: bytes, close: bytes, entries: seq<Entry>)
    ensures MemberValues(Fields(indent, close, entries)) == EntryValues(entries)
  {
    hide ValueOf; hide Canonical; hide MeaningOf; hide Spelled;
    if entries != [] {
      CanonicalIsQuoted(entries[0].0);
      FieldsDenote(indent, close, entries[1..]);
      var first := (entries[0].0, ValueOf(entries[0].1));
      assert EntryValues(entries) == [first] + EntryValues(entries[1..]);
    }
  }

  lemma {:induction false} LookupIs(members: seq<(bytes, JsonValue)>, k: nat)
    requires k < |members| && forall j :: 0 <= j < k ==> members[j].0 != members[k].0
    ensures Lookup(members, members[k].0) == Some(members[k].1)
  {
    if k > 0 {
      LookupIs(members[1..], k - 1);
    }
  }

  /** Keys that no earlier entry has. */
  predicate FreshKey(entries: seq<Entry>, k: nat)
    requires k < |entries|
  {
    forall j :: 0 <= j < k ==> entries[j].0 != entries[k].0
  }

  lemma FieldOf(indent: bytes, close: bytes, entries: seq<Entry>, k: nat)
    requires k < |entries| && FreshKey(entries, k)
    ensures ValueOf(Section(indent, close, entries)).Get(entries[k].0) == Some(ValueOf(entries[k].1))
  {
    hide ValueOf; hide Lookup; hide Fields;
    FieldsDenote(indent, close, entries);
    LookupIs(EntryValues(entries), k);
    SectionDenotes(indent, close, entries);
  }

  lemma SectionDenotes(indent: bytes, close: bytes, entries: seq<Entry>)
    ensures ValueOf(Section(indent, close, entries)) == Object(MemberValues(Fields(indent, close, entries)))
  {
    hide Fields; hide MemberValues;
  }

  lemma {:induction false} ListDenotes(strings: seq<bytes>, before: bytes, values: seq<JsonValue>, path: bytes)
    requires |values| >= |strings| && values[|values| - |strings|..] == ItemValues(Listed(strings, before))
    ensures StringsFrom(values, |values| - |strings|, path) == Ok(strings)
    decreases |strings|
  {
    hide Dec;
    var i := |values| - |strings|;
    if strings != [] {
      TextDenotes(strings[0]);
      var rest := ItemValues(Listed(strings[1..], " "));
      assert values[i..] == [String(strings[0])] + rest;
      assert values[i] == String(strings[0]);
      assert values[i + 1..] == rest;
      ListDenotes(strings[1..], " ", values, path);
      assert [strings[0]] + strings[1..] == strings;
    }
  }

  lemma {:induction false} ListLength(strings: seq<bytes>, before: bytes)
    ensures |ItemValues(Listed(strings, before))| == |strings|
  {
    if strings != [] {
      ListLength(strings[1..], " ");
    }
  }

  lemma StringsRead(strings: seq<bytes>, path: bytes)
    ensures StringsOf(ValueOf(StringsDoc(strings)), path) == Ok(strings)
  {
    hide Listed; hide ItemValues; hide StringsFrom;
    var values := ItemValues(Listed(strings, ""));
    ListLength(strings, "");
    assert values[0..] == values;
    ListDenotes(strings, "", values, path);
  }

  lemma {:induction false} PairsDenote(pairs: seq<(bytes, bytes)>, i: nat, path: bytes)
    requires i <= |pairs|
    ensures PairsFrom(EntryValues(PairEntries(pairs)), i, path) == Ok(pairs[i..])
    decreases |pairs| - i
  {
    var values := EntryValues(PairEntries(pairs));
    if i == |pairs| {
      assert pairs[i..] == [];
    } else {
      PairsDenote(pairs, i + 1, path);
      TextDenotes(pairs[i].1);
      assert values[i] == (pairs[i].0, String(pairs[i].1));
      assert pairs[i..] == [pairs[i]] + pairs[i + 1..];
    }
  }

  lemma PairsRead(pairs: seq<(bytes, bytes)>, path: bytes)
    ensures PairsOf(ValueOf(Inner(PairEntries(pairs))), path) == Ok(pairs)
  {
    hide Fields; hide MemberValues; hide PairsFrom; hide ValueOf; hide PairEntries; hide EntryValues;
    SectionDenotes("    ", "  ", PairEntries(pairs));
    FieldsDenote("    ", "  ", PairEntries(pairs));
    PairsDenote(pairs, 0, path);
    assert pairs[0..] == pairs;
  }

  // ----- fields read back -----

  lemma NatField(v: JsonValue, key: bytes, n: nat, slot: nat, path: bytes, other: NumeralReader)
    requires v.Get(key) == Some(ValueOf(NatDoc(n))) && n <= U64_MAX
    ensures ReadU64(v, key, slot, path, other) == Ok(n) <==> Survives(n)
    ensures ReadUsize(v, key, slot, path, other) == Ok(n) <==> Survives(n)
    ensures n <= U16_MAX ==> ReadU16(v, key, slot, path, other) == Ok(n)
  {
    hide Lookup; hide AsU64; hide Print; hide Survives; hide Rounded;
    NatDenotes(n);
    IntegerSurvives(n, other);
    if n <= U16_MAX {
      SmallSurvives(n);
    }
  }

  lemma SmallSurvives(n: nat)
    requires n < EXACT
    ensures Survives(n)
  {
    SmallIsExact(n);
  }

  lemma ServerReads(s: ServerConfig, d: ServerConfig, other: NumeralReader)
    requires s.port <= U16_MAX && s.workerThreads <= U64_MAX && s.maxConnections <= U64_MAX
    requires s.keepAliveSecs <= U64_MAX && s.readTimeoutSecs <= U64_MAX && s.requestMaxBytes <= U64_MAX
    ensures ReadServer(ValueOf(Inner(ServerEntries(s))), d, other) == Ok(s) <==>
            && Survives(s.workerThreads) && Survives(s.maxConnections) && Survives(s.keepAliveSecs)
            && Survives(s.readTimeoutSecs) && Survives(s.requestMaxBytes)
  {
    hide Lookup; hide ValueOf; hide Section; hide Survives; hide ReadU64; hide ReadUsize; hide ReadU16; hide NatDoc;
    var e := ServerEntries(s);
    var v := ValueOf(Inner(e));
    ServerKeys(s);
    FieldOf("    ", "  ", e, 0);
    FieldOf("    ", "  ", e, 1);
    FieldOf("    ", "  ", e, 2);
    FieldOf("    ", "  ", e, 3);
    FieldOf("    ", "  ", e, 4);
    FieldOf("    ", "  ", e, 5);
    FieldOf("    ", "  ", e, 6);
    StringField(v, "bind", s.bind, d.bind, "server");
    NatField(v, "port", s.port, d.port, "server", other);
    NatField(v, "worker_threads", s.workerThreads, d.workerThreads, "server", other);
    NatField(v, "max_connections", s.maxConnections, d.maxConnections, "server", other);
    NatField(v, "keep_alive_secs", s.keepAliveSecs, d.keepAliveSecs, "server", other);
    NatField(v, "read_timeout_secs", s.readTimeoutSecs, d.readTimeoutSecs, "server", other);
    NatField(v, "request_max_bytes", s.requestMaxBytes, d.requestMaxBytes, "server", other);
  }

  lemma StringField(v: JsonValue, key: bytes, text: bytes, slot: bytes, path: bytes)
    requires v.Get(key) == Some(ValueOf(TextDoc(text)))
    ensures ReadString(v, key, slot, path) == Ok(text)
  {
    hide TextDoc;
    TextDenotes(text);
  }

  lemma BoolField(v: JsonValue, key: bytes, b: bool, slot: bool, path: bytes)
    requires v.Get(key) == Some(ValueOf(BoolDoc(b)))
    ensures ReadBool(v, key, slot, path) == Ok(b)
  {
  }

  lemma ServerKeys(s: ServerConfig)
    ensures var e := ServerEntries(s); forall k :: 0 <= k < |e| ==> FreshKey(e, k)
  {
    var e := ServerEntries(s);
    assert e[0].0[0] != e[1].0[0] && e[3].0[0] != e[4].0[0] && e[5].0[2] != e[6].0[2];
  }

  lemma StaticReads(s: StaticConfig, d: StaticConfig)
    ensures ReadStatic(ValueOf(Inner(StaticEntries(s))), d) == Ok(s)
  {
    hide Lookup; hide ValueOf; hide Section; hide ReadString; hide ReadBool; hide StringsOf; hide StringsDoc;
    var e := StaticEntries(s);
    var v := ValueOf(Inner(e));
    assert FreshKey(e, 0) && FreshKey(e, 1) && FreshKey(e, 2) && FreshKey(e, 3);
    FieldOf("    ", "  ", e, 0);
    FieldOf("    ", "  ", e, 1);
    FieldOf("    ", "  ", e, 2);
    FieldOf("    ", "  ", e, 3);
    StringField(v, "root", s.root, d.root, "static");
    StringsRead(s.indexFiles, "static.index_files");
    BoolField(v, "follow_symlinks", s.followSymlinks, d.followSymlinks, "static");
    BoolField(v, "directory_listing", s.directoryListing, d.directoryListing, "static");
  }

  lemma CompressionReads(c: CompressionConfig, d: CompressionConfig, other: NumeralReader)
    requires c.minBytes <= U64_MAX
    ensures ReadCompression(ValueOf(Inner(CompressionEntries(c))), d, other) == Ok(c) <==> Survives(c.minBytes)
  {
    hide Lookup; hide ValueOf; hide Section; hide ReadUsize; hide ReadBool; hide Survives; hide NatDoc;
    var e := CompressionEntries(c);
    var v := ValueOf(Inner(e));
    assert FreshKey(e, 0) && FreshKey(e, 1);
    FieldOf("    ", "  ", e, 0);
    FieldOf("    ", "  ", e, 1);
    BoolField(v, "gzip", c.gzip, d.gzip, "compression");
    NatField(v, "min_bytes", c.minBytes, d.minBytes, "compression", other);
  }

  predicate LimitSurvives(l: RateLimitConfig) {
    Survives(l.requests) && Survives(l.windowSecs) && Survives(l.banSecs)
  }

  lemma RateLimitReads(l: RateLimitConfig, d: RateLimitConfig, other: NumeralReader)
    requires l.requests <= U64_MAX && l.windowSecs <= U64_MAX && l.banSecs <= U64_MAX
    ensures ReadRateLimit(ValueOf(Section("      ", "    ", RateLimitEntries(l))), d, other) == Ok(l)
            <==> LimitSurvives(l)
  {
    hide Lookup; hide ValueOf; hide Section; hide ReadU64; hide ReadBool; hide Survives; hide NatDoc;
    var e := RateLimitEntries(l);
    var v := ValueOf(Section("      ", "    ", e));
    assert e[1].0[0] != e[3].0[0];
    assert FreshKey(e, 0) && FreshKey(e, 1) && FreshKey(e, 2) && FreshKey(e, 3);
    FieldOf("      ", "    ", e, 0);
    FieldOf("      ", "    ", e, 1);
    FieldOf("      ", "    ", e, 2);
    FieldOf("      ", "    ", e, 3);
    BoolField(v, "enabled", l.enabled, d.enabled, "security.rate_limit");
    NatField(v, "requests", l.requests, d.requests, "security.rate_limit", other);
    NatField(v, "window_secs", l.windowSecs, d.windowSecs, "security.rate_limit", other);
    NatField(v, "ban_secs", l.banSecs, d.banSecs, "security.rate_limit", other);
  }

  lemma SecurityReads(s: SecurityConfig, d: SecurityConfig, other: NumeralReader)
    requires s.rateLimit.requests <= U64_MAX && s.rateLimit.windowSecs <= U64_MAX && s.rateLimit.banSecs <= U64_MAX
    ensures ReadSecurity(ValueOf(Inner(SecurityEntries(s))), d, other) == Ok(s) <==> LimitSurvives(s.rateLimit)
  {
    hide Lookup; hide ValueOf; hide Section; hide ReadRateLimit; hide ReadBool; hide StringsOf; hide StringsDoc;
    hide LimitSurvives;
    var e := SecurityEntries(s);
    var v := ValueOf(Inner(e));
    assert FreshKey(e, 0) && FreshKey(e, 1) && FreshKey(e, 2);
    FieldOf("    ", "  ", e, 0);
    FieldOf("    ", "  ", e, 1);
    FieldOf("    ", "  ", e, 2);
    BoolField(v, "enable_security_headers", s.enableSecurityHeaders, d.enableSecurityHeaders, "security");
    RateLimitReads(s.rateLimit, d.rateLimit, other);
    StringsRead(s.blockedPatterns, "security.blocked_patterns");
  }

  lemma TlsReads(t: TlsConfig, d: TlsConfig)
    ensures ReadTls(ValueOf(Inner(TlsEntries(t))), d) == Ok(t)
  {
    hide Lookup; hide ValueOf; hide Section; hide ReadString; hide ReadBool;
    var e := TlsEntries(t);
    var v := ValueOf(Inner(e));
    assert e[0].0[0] != e[1].0[0] && e[0].0[0] != e[2].0[0] && e[1].0[0] != e[2].0[0];
    assert FreshKey(e, 0) && FreshKey(e, 1) && FreshKey(e, 2);
    FieldOf("    ", "  ", e, 0);
    FieldOf("    ", "  ", e, 1);
    FieldOf("    ", "  ", e, 2);
    BoolField(v, "enabled", t.enabled, d.enabled, "tls");
    StringField(v, "cert_path", t.certPath, d.certPath, "tls");
    StringField(v, "key_path", t.keyPath, d.keyPath, "tls");
  }

  lemma AdminReads(a: AdminConfig, d: AdminConfig)
    ensures ReadAdmin(ValueOf(Inner(AdminEntries(a))), d) == Ok(a)
  {
    hide Lookup; hide ValueOf; hide Section; hide ReadString;
    var e := AdminEntries(a);
    var v := ValueOf(Inner(e));
    assert FreshKey(e, 0) && FreshKey(e, 1);
    FieldOf("    ", "  ", e, 0);
    FieldOf("    ", "  ", e, 1);
    StringField(v, "username", a.username, d.username, "admin");
    StringField(v, "password_sha256", a.passwordSha256, d.passwordSha256, "admin");
  }

  lemma LoggingReads(l: LoggingConfig, d: LoggingConfig)
    ensures ReadLogging(ValueOf(Inner(LoggingEntries(l))), d) == Ok(l)
  {
    hide Lookup; hide ValueOf; hide Section; hide ReadString; hide ReadBool;
    var e := LoggingEntries(l);
    var v := ValueOf(Inner(e));
    assert FreshKey(e, 0) && FreshKey(e, 1);
    FieldOf("    ", "  ", e, 0);
    FieldOf("    ", "  ", e, 1);
    StringField(v, "level", l.level, d.level, "logging");
    BoolField(v, "access_log", l.accessLog, d.accessLog, "logging");
  }

  // ----- the whole configuration -----

  /** The widths of the integer fields. */
  predicate InWidth(c: Config) {
    && c.server.port <= U16_MAX && c.server.workerThreads <= USIZE_MAX && c.server.maxConnections <= USIZE_MAX
    && c.server.keepAliveSecs <= U64_MAX && c.server.readTimeoutSecs <= U64_MAX && c.server.requestMaxBytes <= USIZE_MAX
    && c.compression.minBytes <= USIZE_MAX
    && c.security.rateLimit.requests <= U64_MAX && c.security.rateLimit.windowSecs <= U64_MAX
    && c.security.rateLimit.banSecs <= U64_MAX
  }

  predicate AllUtf8(strings: seq<bytes>) {
    forall i :: 0 <= i < |strings| ==> ValidUtf8(strings[i])
  }

  /** Every string is text, as the source's string type guarantees. */
  predicate IsText(c: Config) {
    && ValidUtf8(c.server.bind) && ValidUtf8(c.staticFiles.root) && AllUtf8(c.staticFiles.indexFiles)
    && AllUtf8(c.security.blockedPatterns) && ValidUtf8(c.tls.certPath) && ValidUtf8(c.tls.keyPath)
    && ValidUtf8(c.admin.username) && ValidUtf8(c.admin.passwordSha256) && ValidUtf8(c.logging.level)
    && forall i :: 0 <= i < |c.mimeOverrides| ==> ValidUtf8(c.mimeOverrides[i].0) && ValidUtf8(c.mimeOverrides[i].1)
  }

  predicate NumbersSurvive(c: Config) {
    && Survives(c.server.workerThreads) && Survives(c.server.maxConnections) && Survives(c.server.keepAliveSecs)
    && Survives(c.server.readTimeoutSecs) && Survives(c.server.requestMaxBytes)
    && Survives(c.compression.minBytes) && LimitSurvives(c.security.rateLimit)
  }

  // ----- the saved text is a JSON document -----

  /** A well-formed document that opens at most `depth` containers at once. */
  predicate Fits(d: Doc, depth: nat) {
    WellFormed(d) && Depth(d) <= depth
  }

  predicate EntryFits(entry: Entry, depth: nat) {
    ValidUtf8(entry.0) && Fits(entry.1, depth)
  }

  predicate EntriesFit(entries: seq<Entry>, depth: nat) {
    forall k :: 0 <= k < |entries| ==> EntryFits(entries[k], depth)
  }

  lemma {:induction false} FieldsFit(indent: bytes, close: bytes, entries: seq<Entry>, depth: nat)
    requires AllSpace("\n" + indent) && AllSpace("\n" + close) && EntriesFit(entries, depth)
    ensures WellFormedMembers(Fields(indent, close, entries)) && MembersDepth(Fields(indent, close, entries)) <= depth
  {
    hide ValidUtf8; hide WellFormed; hide Depth;
    hide Canonical; hide IsSpelling;
    if entries != [] {
      CanonicalIsSpelling(entries[0].0);
      assert EntryFits(entries[0], depth);
      assert EntriesFit(entries[1..], depth);
      FieldsFit(indent, close, entries[1..], depth);
      assert AllSpace("") && AllSpace(" ");
    }
  }

  lemma SectionFits(indent: bytes, close: bytes, entries: seq<Entry>, depth: nat)
    requires AllSpace("\n" + indent) && AllSpace("\n" + close) && EntriesFit(entries, depth)
    ensures Fits(Section(indent, close, entries), depth + 1)
  {
    hide Fields; hide WellFormedMembers; hide MembersDepth; hide EntriesFit;
    FieldsFit(indent, close, entries, depth);
  }

  lemma {:induction false} ListFits(strings: seq<bytes>, before: bytes)
    requires AllUtf8(strings) && AllSpace(before)
    ensures WellFormedItems(Listed(strings, before)) && ItemsDepth(Listed(strings, before)) == 0
  {
    hide ValidUtf8;
    hide Canonical; hide IsSpelling;
    if strings != [] {
      CanonicalIsSpelling(strings[0]);
      ListFits(strings[1..], " ");
    }
  }

  lemma StringsFit(strings: seq<bytes>)
    requires AllUtf8(strings)
    ensures Fits(StringsDoc(strings), 1)
  {
    hide Listed; hide WellFormedItems; hide ItemsDepth;
    ListFits(strings, "");
  }

  predicate IsLeaf(d: Doc) {
    d.BoolDoc? || (d.StringDoc? && IsSpelling(d.pieces)) || (d.NumberDoc? && JsonNumerals.IsNumeral(d.numeral))
  }

  lemma TextIsLeaf(s: bytes)
    requires ValidUtf8(s)
    ensures IsLeaf(TextDoc(s))
  {
    hide Canonical; hide IsSpelling; hide ValidUtf8;
    CanonicalIsSpelling(s);
  }

  lemma LeafFits(d: Doc, depth: nat)
    requires IsLeaf(d)
    ensures Fits(d, depth)
  {
  }

  /** Leaves, or documents known to fit, under ASCII keys. */
  lemma EntriesFitIf(entries: seq<Entry>, depth: nat)
    requires forall k :: 0 <= k < |entries| ==> IsAscii(entries[k].0)
    requires forall k :: 0 <= k < |entries| ==> Fits(entries[k].1, depth)
    ensures EntriesFit(entries, depth)
  {
    hide Fits; hide IsAscii; hide ValidUtf8;
    forall k | 0 <= k < |entries| ensures EntryFits(entries[k], depth) {
      AsciiIsValid(entries[k].0);
    }
  }

  /** A section of leaves. */
  lemma LeavesFit(entries: seq<Entry>, indent: bytes, close: bytes)
    requires AllSpace("\n" + indent) && AllSpace("\n" + close)
    requires forall k :: 0 <= k < |entries| ==> IsAscii(entries[k].0) && IsLeaf(entries[k].1)
    ensures Fits(Section(indent, close, entries), 1)
  {
    hide Fits; hide IsAscii; hide IsLeaf; hide Section; hide AllSpace;
    forall k | 0 <= k < |entries| ensures Fits(entries[k].1, 0) {
      LeafFits(entries[k].1, 0);
    }
    EntriesFitIf(entries, 0);
    SectionFits(indent, close, entries, 0);
  }

  lemma StaticFits(s: StaticConfig)
    requires ValidUtf8(s.root) && AllUtf8(s.indexFiles)
    ensures Fits(Inner(StaticEntries(s)), 2)
  {
    hide Fits; hide ValidUtf8; hide Section; hide StringsDoc; hide TextDoc;
    var e := StaticEntries(s);
    TextIsLeaf(s.root);
    LeafFits(e[0].1, 1);
    StringsFit(s.indexFiles);
    LeafFits(e[2].1, 1);
    LeafFits(e[3].1, 1);
    EntriesFitIf(e, 1);
    SectionFits("    ", "  ", e, 1);
  }

  lemma PairsFit(pairs: seq<(bytes, bytes)>)
    requires forall i :: 0 <= i < |pairs| ==> ValidUtf8(pairs[i].0) && ValidUtf8(pairs[i].1)
    ensures Fits(Inner(PairEntries(pairs)), 2)
  {
    hide Fits; hide ValidUtf8; hide Section;
    var e := PairEntries(pairs);
    forall k | 0 <= k < |e| ensures EntryFits(e[k], 1) {
      TextIsLeaf(pairs[k].1);
      LeafFits(e[k].1, 1);
    }
    SectionFits("    ", "  ", e, 1);
  }

  /** A section of leaves fits under the root like the deeper ones. */
  lemma LeafSectionFits(entries: seq<Entry>)
    requires forall k :: 0 <= k < |entries| ==> IsAscii(entries[k].0) && IsLeaf(entries[k].1)
    ensures Fits(Inner(entries), 2)
  {
    hide IsAscii; hide IsLeaf; hide Section; hide WellFormed; hide Depth;
    LeavesFit(entries, "    ", "  ");
  }

  lemma NumberIsLeaf(n: nat)
    ensures IsLeaf(NatDoc(n))
  {
    hide Print;
  }

  lemma ServerFits(s: ServerConfig)
    requires ValidUtf8(s.bind)
    ensures Fits(Inner(ServerEntries(s)), 2)
  {
    hide Fits; hide ValidUtf8; hide Inner; hide NatDoc;
    TextIsLeaf(s.bind);
    NumberIsLeaf(s.port);
    NumberIsLeaf(s.workerThreads);
    NumberIsLeaf(s.maxConnections);
    NumberIsLeaf(s.keepAliveSecs);
    NumberIsLeaf(s.readTimeoutSecs);
    NumberIsLeaf(s.requestMaxBytes);
    LeafSectionFits(ServerEntries(s));
  }

  lemma CompressionFits(c: CompressionConfig)
    ensures Fits(Inner(CompressionEntries(c)), 2)
  {
    hide Fits; hide Inner; hide NatDoc;
    NumberIsLeaf(c.minBytes);
    LeafSectionFits(CompressionEntries(c));
  }

  lemma RateLimitFits(l: RateLimitConfig)
    ensures Fits(Section("      ", "    ", RateLimitEntries(l)), 1)
  {
    hide Fits; hide Section; hide NatDoc;
    NumberIsLeaf(l.requests);
    NumberIsLeaf(l.windowSecs);
    NumberIsLeaf(l.banSecs);
    LeavesFit(RateLimitEntries(l), "      ", "    ");
  }

  lemma SecurityFits(s: SecurityConfig)
    requires AllUtf8(s.blockedPatterns)
    ensures Fits(Inner(SecurityEntries(s)), 2)
  {
    hide Fits; hide ValidUtf8; hide Section; hide StringsDoc; hide RateLimitEntries;
    var e := SecurityEntries(s);
    LeafFits(e[0].1, 1);
    RateLimitFits(s.rateLimit);
    StringsFit(s.blockedPatterns);
    EntriesFitIf(e, 1);
    SectionFits("    ", "  ", e, 1);
  }

  lemma TlsFits(t: TlsConfig)
    requires ValidUtf8(t.certPath) && ValidUtf8(t.keyPath)
    ensures Fits(Inner(TlsEntries(t)), 2)
  {
    hide Fits; hide ValidUtf8; hide Inner; hide TextDoc;
    TextIsLeaf(t.certPath);
    TextIsLeaf(t.keyPath);
    LeafSectionFits(TlsEntries(t));
  }

  lemma AdminFits(a: AdminConfig)
    requires ValidUtf8(a.username) && ValidUtf8(a.passwordSha256)
    ensures Fits(Inner(AdminEntries(a)), 2)
  {
    hide Fits; hide ValidUtf8; hide Inner; hide TextDoc;
    TextIsLeaf(a.username);
    TextIsLeaf(a.passwordSha256);
    LeafSectionFits(AdminEntries(a));
  }

  lemma LoggingFits(l: LoggingConfig)
    requires ValidUtf8(l.level)
    ensures Fits(Inner(LoggingEntries(l)), 2)
  {
    hide Fits; hide ValidUtf8; hide Inner; hide TextDoc;
    TextIsLeaf(l.level);
    LeafSectionFits(LoggingEntries(l));
  }

  lemma ConfigFits(c: Config)
    requires IsText(c)
    ensures Fits(ConfigDoc(c), 3)
  {
    hide Fits; hide ValidUtf8; hide Section; hide Inner; hide ServerEntries; hide StaticEntries;
    hide CompressionEntries;
    hide SecurityEntries; hide TlsEntries; hide AdminEntries; hide LoggingEntries; hide PairEntries; hide AllUtf8;
    ServerFits(c.server);
    CompressionFits(c.compression);
    TlsFits(c.tls);
    AdminFits(c.admin);
    LoggingFits(c.logging);
    StaticFits(c.staticFiles);
    SecurityFits(c.security);
    PairsFit(c.mimeOverrides);
    EntriesFitIf(ConfigEntries(c), 2);
    SectionFits("  ", "", ConfigEntries(c), 2);
  }

  // ----- saving and loading -----

  lemma TopKeys(c: Config)
    ensures var e := ConfigEntries(c); forall k :: 0 <= k < |e| ==> FreshKey(e, k)
  {
    hide Inner; hide ServerEntries; hide StaticEntries; hide CompressionEntries; hide SecurityEntries; hide TlsEntries;
    hide AdminEntries; hide LoggingEntries; hide PairEntries;
    var e := ConfigEntries(c);
    assert e[0].0[1] != e[1].0[1];
    assert FreshKey(e, 0) && FreshKey(e, 1) && FreshKey(e, 2) && FreshKey(e, 3);
    assert FreshKey(e, 4) && FreshKey(e, 5) && FreshKey(e, 6) && FreshKey(e, 7);
  }

  lemma ConfigReads(c: Config, other: NumeralReader)
    requires InWidth(c)
    ensures FromJson(ValueOf(ConfigDoc(c)), other) == Ok(c) <==> Validate(c).Ok? && NumbersSurvive(c)
  {
    hide Lookup; hide ValueOf; hide Section; hide Validate; hide Survives; hide LimitSurvives; hide FreshKey;
    hide ServerEntries; hide StaticEntries; hide CompressionEntries; hide SecurityEntries; hide TlsEntries;
    hide AdminEntries;
    hide LoggingEntries; hide PairEntries; hide ReadServer; hide ReadStatic; hide ReadCompression; hide ReadSecurity;
    hide ReadTls;
    hide ReadAdmin; hide ReadLogging; hide PairsOf; hide Inner; hide Fields; hide MemberValues;
    var e := ConfigEntries(c);
    TopKeys(c);
    SectionDenotes("  ", "", e);
    FieldOf("  ", "", e, 0);
    FieldOf("  ", "", e, 1);
    FieldOf("  ", "", e, 2);
    FieldOf("  ", "", e, 3);
    FieldOf("  ", "", e, 4);
    FieldOf("  ", "", e, 5);
    FieldOf("  ", "", e, 6);
    FieldOf("  ", "", e, 7);
    ServerReads(c.server, DEFAULT.server, other);
    StaticReads(c.staticFiles, DEFAULT.staticFiles);
    CompressionReads(c.compression, DEFAULT.compression, other);
    SecurityReads(c.security, DEFAULT.security, other);
    TlsReads(c.tls, DEFAULT.tls);
    AdminReads(c.admin, DEFAULT.admin);
    LoggingReads(c.logging, DEFAULT.logging);
    PairsRead(c.mimeOverrides, "mime_overrides");
  }

  /** A saved configuration loads as itself exactly when it is valid and its
      integers survive being read as doubles. */
  lemma SavedLoads(c: Config, other: NumeralReader)
    requires InWidth(c) && IsText(c)
    ensures FromJsonStr(Text(ConfigDoc(c)) + "\n", other) == Ok(c) <==> Validate(c).Ok? && NumbersSurvive(c)
  {
    hide Text; hide ValueOf; hide ConfigDoc; hide FromJson; hide Validate; hide NumbersSurvive; hide InWidth;
    hide IsText;
    hide WellFormed; hide Depth; hide ParseDocument;
    var d := ConfigDoc(c);
    ConfigFits(c);
    assert WellFormed(d) && Depth(d) <= 3;
    assert AllSpace("") && AllSpace("\n");
    DocumentReads("", d, "\n");
    assert "" + Text(d) + "\n" == Text(d) + "\n";
    ConfigReads(c, other);
  }

  /** One more than 2^53 is a valid setting that does not survive. */
  lemma LargeSettingIsLost(other: NumeralReader)
    ensures var c := DEFAULT.(server := DEFAULT.server.(maxConnections := EXACT + 1));
            && Validate(c).Ok? && InWidth(c) && IsText(c)
            && FromJsonStr(Text(ConfigDoc(c)) + "\n", other) != Ok(c)
  {
    hide Text; hide ConfigDoc; hide FromJson; hide ParseDocument; hide Rounded;
    var c := DEFAULT.(server := DEFAULT.server.(maxConnections := EXACT + 1));
    assert DEFAULT.logging.level == LOG_LEVELS[2];
    DefaultIsText();
    FirstLoss();
    SavedLoads(c, other);
  }

  lemma DefaultIsText()
    ensures IsText(DEFAULT)
  {
    hide ValidUtf8;
    AsciiIsValid(DEFAULT.server.bind);
    AsciiIsValid(DEFAULT.staticFiles.root);
    AsciiIsValid(DEFAULT.staticFiles.indexFiles[0]);
    AsciiIsValid(DEFAULT.staticFiles.indexFiles[1]);
    AsciiIsValid(DEFAULT.tls.certPath);
    AsciiIsValid(DEFAULT.logging.level);
  }
}
