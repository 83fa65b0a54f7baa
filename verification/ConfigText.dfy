/** Writing a configuration as JSON text. */
module ConfigText {
  import opened Bytes
  import opened Numerals
  import opened JsonNumerals
  import opened JsonStrings
  import opened JsonText
  import opened Configuration

  type Entry = (bytes, Doc)

  // ----- layout: one field a line -----

  function Fields(indent: bytes, close: bytes, entries: seq<Entry>): Members {
    if entries == [] then NoMembers
    else
      var (key, doc) := entries[0];
      var after := if |entries| == 1 then "\n" + close else "";
      Member("\n" + indent, Canonical(key), "", " ", doc, after, Fields(indent, close, entries[1..]))
  }

  function Section(indent: bytes, close: bytes, entries: seq<Entry>): Doc {
    ObjectDoc("", Fields(indent, close, entries))
  }

  function FieldLine(indent: bytes, entry: Entry, last: bool): bytes {
    indent + (Quoted(entry.0) + (": " + (Text(entry.1) + (if last then "\n" else ",\n"))))
  }

  /** The lines of a section after its opening one. */
  function Lines(indent: bytes, close: bytes, entries: seq<Entry>): bytes {
    if entries == [] then close + "}"
    else FieldLine(indent, entries[0], |entries| == 1) + Lines(indent, close, entries[1..])
  }

  function Listed(strings: seq<bytes>, before: bytes): Items {
    if strings == [] then NoItems else Item(before, TextDoc(strings[0]), "", Listed(strings[1..], " "))
  }

  /** A string as the writer spells it. */
  function TextDoc(s: bytes): Doc {
    StringDoc(Canonical(s))
  }

  function StringsDoc(strings: seq<bytes>): Doc {
    ArrayDoc("", Listed(strings, ""))
  }

  function NatDoc(n: nat): Doc {
    NumberDoc(Numeral(false, Dec(n), None, None))
  }

  function PairEntries(pairs: seq<(bytes, bytes)>): (entries: seq<Entry>)
    ensures |entries| == |pairs|
  {
    seq(|pairs|, i requires 0 <= i < |pairs| => (pairs[i].0, TextDoc(pairs[i].1)))
  }

  // ----- the documents -----

  function ServerEntries(s: ServerConfig): seq<Entry> {
    [ ("bind", TextDoc(s.bind)), ("port", NatDoc(s.port)), ("worker_threads", NatDoc(s.workerThreads)),
      ("max_connections", NatDoc(s.maxConnections)), ("keep_alive_secs", NatDoc(s.keepAliveSecs)),
      ("read_timeout_secs", NatDoc(s.readTimeoutSecs)), ("request_max_bytes", NatDoc(s.requestMaxBytes)) ]
  }

  function StaticEntries(s: StaticConfig): seq<Entry> {
    [ ("root", TextDoc(s.root)), ("index_files", StringsDoc(s.indexFiles)),
      ("follow_symlinks", BoolDoc(s.followSymlinks)), ("directory_listing", BoolDoc(s.directoryListing)) ]
  }

  function CompressionEntries(c: CompressionConfig): seq<Entry> {
    [("gzip", BoolDoc(c.gzip)), ("min_bytes", NatDoc(c.minBytes))]
  }

  function RateLimitEntries(r: RateLimitConfig): seq<Entry> {
    [ ("enabled", BoolDoc(r.enabled)), ("requests", NatDoc(r.requests)),
      ("window_secs", NatDoc(r.windowSecs)), ("ban_secs", NatDoc(r.banSecs)) ]
  }

  function SecurityEntries(s: SecurityConfig): seq<Entry> {
    [ ("enable_security_headers", BoolDoc(s.enableSecurityHeaders)),
      ("rate_limit", Section("      ", "    ", RateLimitEntries(s.rateLimit))),
      ("blocked_patterns", StringsDoc(s.blockedPatterns)) ]
  }

  function TlsEntries(t: TlsConfig): seq<Entry> {
    [("enabled", BoolDoc(t.enabled)), ("cert_path", TextDoc(t.certPath)), ("key_path", TextDoc(t.keyPath))]
  }

  function AdminEntries(a: AdminConfig): seq<Entry> {
    [("username", TextDoc(a.username)), ("password_sha256", TextDoc(a.passwordSha256))]
  }

  function LoggingEntries(l: LoggingConfig): seq<Entry> {
    [("level", TextDoc(l.level)), ("access_log", BoolDoc(l.accessLog))]
  }

  function Inner(entries: seq<Entry>): Doc {
    Section("    ", "  ", entries)
  }

  function ConfigEntries(c: Config): seq<Entry> {
    [ ("server", Inner(ServerEntries(c.server))), ("static", Inner(StaticEntries(c.staticFiles))),
      ("compression", Inner(CompressionEntries(c.compression))), ("security", Inner(SecurityEntries(c.security))),
      ("tls", Inner(TlsEntries(c.tls))), ("admin", Inner(AdminEntries(c.admin))),
      ("logging", Inner(LoggingEntries(c.logging))), ("mime_overrides", Inner(PairEntries(c.mimeOverrides))) ]
  }

  function ConfigDoc(c: Config): Doc {
    Section("  ", "", ConfigEntries(c))
  }

  // ----- the text of a layout -----

  lemma Assoc(a: bytes, b: bytes, c: bytes)
    ensures (a + b) + c == a + (b + c)
  {
  }

  /** A section is its opening line and the lines after it. */
  lemma {:induction false} SectionText(indent: bytes, close: bytes, entries: seq<Entry>)
    requires entries != []
    ensures Text(Section(indent, close, entries)) == "{\n" + Lines(indent, close, entries)
  {
    hide Lines; hide MembersText;
    FieldsText(indent, close, entries);
    var lines := Lines(indent, close, entries);
    assert "{" + ("\n" + lines) == "{\n" + lines;
  }

  lemma {:induction false} FieldsText(indent: bytes, close: bytes, entries: seq<Entry>)
    requires entries != []
    ensures var m := Fields(indent, close, entries); m.before + MembersText(m) == "\n" + Lines(indent, close, entries)
  {
    hide Text; hide Quoted; hide MembersText; hide Lines; hide Spelled; hide Canonical;
    var m := Fields(indent, close, entries);
    var (key, doc) := entries[0];
    var q, t := Quoted(key), Text(doc);
    var rest := Lines(indent, close, entries[1..]);
    MembersTextIs(m);
    CanonicalIsQuoted(key);
    LinesStep(indent, close, entries);
    var tail := m.after + MembersTail(m);
    var end := if |entries| == 1 then "\n" else ",\n";
    if |entries| == 1 {
      NoLines(indent, close, entries[1..]);
      Assoc("\n", close, "}");
    } else {
      FieldsText(indent, close, entries[1..]);
      assert tail == "," + ("\n" + rest);
      CommaJoin(rest);
    }
    assert tail == end + rest;
    ColonJoin(t + tail);
    LineJoin(indent, q, t, end, rest);
    Assoc("\n", indent, q + (": " + (t + tail)));
  }

  lemma CommaJoin(rest: bytes)
    ensures "," + ("\n" + rest) == ",\n" + rest
  {
  }

  lemma ColonJoin(rest: bytes)
    ensures "" + (":" + (" " + rest)) == ": " + rest
  {
  }

  lemma LineJoin(indent: bytes, q: bytes, t: bytes, end: bytes, rest: bytes)
    ensures (indent + (q + (": " + (t + end)))) + rest == indent + (q + (": " + (t + (end + rest))))
  {
    Assoc(indent, q + (": " + (t + end)), rest);
    Assoc(q, ": " + (t + end), rest);
    Assoc(": ", t + end, rest);
    Assoc(t, end, rest);
  }

  lemma LinesStep(indent: bytes, close: bytes, entries: seq<Entry>)
    requires entries != []
    ensures Lines(indent, close, entries) ==
            FieldLine(indent, entries[0], |entries| == 1) + Lines(indent, close, entries[1..])
  {
  }

  lemma NoLines(indent: bytes, close: bytes, entries: seq<Entry>)
    requires entries == []
    ensures Lines(indent, close, entries) == close + "}" && Fields(indent, close, entries) == NoMembers
  {
  }

  /** Text that is written as it is. */
  predicate Plain(s: bytes) {
    forall i :: 0 <= i < |s| ==> s[i] as int >= 0x20 && s[i] != '"' && s[i] != '\\'
  }

  lemma {:induction false} PlainIsVerbatim(s: bytes)
    requires Plain(s)
    ensures Escape(s) == s
  {
    if s != [] {
      PlainIsVerbatim(s[1..]);
    }
  }

  // ----- writing -----

  /** `"key": value` on its own line, the `k`th of a section. */
  method AppendField(out: bytes, indent: bytes, key: bytes, value: bytes, last: bool,
                     ghost close: bytes, ghost entries: seq<Entry>, ghost k: nat, ghost all: bytes)
    returns (r: bytes)
    requires k < |entries| && Plain(key) && entries[k].0 == key && Text(entries[k].1) == value
             && last == (k + 1 == |entries|)
    requires out + Lines(indent, close, entries[k..]) == all
    ensures r + Lines(indent, close, entries[k + 1..]) == all
  {
    hide Lines; hide Text; hide Plain; hide Escape;
    r := out + indent + "\"" + key + "\": " + value + (if last then "\n" else ",\n");
    PlainIsVerbatim(key);
    LinesStep(indent, close, entries[k..]);
    assert entries[k..][1..] == entries[k + 1..];
    ghost var end := if last then "\n" else ",\n";
    assert r == out + FieldLine(indent, entries[k], last) by {
      assert Quoted(key) == "\"" + key + "\"";
      assert out + indent + "\"" + key + "\": " + value + end ==
             out + (indent + (("\"" + key + "\"") + (": " + (value + end))));
    }
    Assoc(out, FieldLine(indent, entries[k], last), Lines(indent, close, entries[k + 1..]));
  }

  /** The line that opens a section. */
  function Opening(indent: bytes, key: bytes): bytes {
    indent + "\"" + key + "\": {\n"
  }

  /** A section written between its opening and its closing line is a field. */
  lemma Enclosed(out: bytes, indent: bytes, key: bytes, body: bytes, inner: bytes, close: bytes, entries: seq<Entry>)
    requires Plain(key) && entries != []
    requires body + Lines(inner, close, []) == (out + Opening(indent, key)) + Lines(inner, close, entries)
    ensures body + (close + "},\n") == out + FieldLine(indent, (key, Section(inner, close, entries)), false)
  {
    hide Lines; hide Text; hide Plain; hide Escape; hide Section;
    PlainIsVerbatim(key);
    NoLines(inner, close, []);
    SectionText(inner, close, entries);
    var lines := Lines(inner, close, entries);
    var q := "\"" + key + "\"";
    assert body + (close + "},\n") == (body + (close + "}")) + ",\n";
    assert ((out + Opening(indent, key)) + lines) + ",\n" == out + (indent + (q + (": " + (("{\n" + lines) + ",\n"))));
  }

  /** The text of the strings from an index on. */
  function ListText(items: seq<bytes>, i: nat): bytes
    requires i <= |items|
    decreases |items| - i
  {
    if i == |items| then "]"
    else (if i > 0 then ", " else "") + (Quoted(items[i]) + ListText(items, i + 1))
  }

  lemma {:induction false} ListTextIs(items: seq<bytes>, i: nat)
    requires i < |items|
    ensures (if i > 0 then "," else "") + (Listed(items[i..], if i > 0 then " " else "").before
            + ItemsText(Listed(items[i..], if i > 0 then " " else ""))) == ListText(items, i)
    decreases |items| - i
  {
    hide Quoted; hide Text; hide ItemsText;
    var before := if i > 0 then " " else "";
    var list := Listed(items[i..], before);
    assert items[i..][1..] == items[i + 1..];
    ItemsTextIs(list);
    assert Text(list.doc) == Quoted(items[i]) by { TextOfString(items[i]); }
    if i + 1 == |items| {
      assert items[i + 1..] == [];
      assert "" + "]" == "]";
    } else {
      ListTextIs(items, i + 1);
      var more := list.more;
      assert list.after + ("," + (more.before + ItemsText(more))) == ListText(items, i + 1);
    }
    assert (if i > 0 then "," else "") + (before + (Quoted(items[i]) + ListText(items, i + 1))) == ListText(items, i);
  }

  lemma TextOfString(s: bytes)
    ensures Text(TextDoc(s)) == Quoted(s)
  {
    hide Quoted; hide Spelled; hide Canonical;
    CanonicalIsQuoted(s);
  }

  lemma TextOfNat(n: nat)
    ensures Text(NatDoc(n)) == Dec(n)
  {
    hide Print;
    assert "" + (Dec(n) + ("" + "")) == Dec(n);
  }

  lemma StringsText(items: seq<bytes>)
    ensures Text(StringsDoc(items)) == "[" + ListText(items, 0)
  {
    hide Quoted; hide ItemsText;
    if items != [] {
      ListTextIs(items, 0);
      assert items[0..] == items;
    }
  }

  method JsonStringArray(items: seq<bytes>) returns (out: bytes)
    ensures out == Text(StringsDoc(items))
  {
    hide Escape; hide Text;
    out := "[";
    for i := 0 to |items|
      invariant out + ListText(items, i) == "[" + ListText(items, 0)
    {
      ghost var before, rest := out, ListText(items, i + 1);
      if i > 0 {
        out := out + ", ";
      }
      var text := EscapeJson(items[i]);
      out := out + "\"" + text + "\"";
      assert out + rest == before + ((if i > 0 then ", " else "") + (Quoted(items[i]) + rest));
    }
    out := out + "]";
    StringsText(items);
  }

  /** The text of the pairs from an index on. */
  function PairsText(pairs: seq<(bytes, bytes)>, i: nat): bytes
    requires i <= |pairs|
    decreases |pairs| - i
  {
    if i == |pairs| then "\n  }"
    else
      (if i > 0 then "," else "")
      + ("\n    " + (Quoted(pairs[i].0) + (": " + (Quoted(pairs[i].1) + PairsText(pairs, i + 1)))))
  }

  lemma {:induction false} PairsTextIs(pairs: seq<(bytes, bytes)>, i: nat)
    requires i <= |pairs|
    ensures (if 0 < i < |pairs| then ",\n" else "\n") + Lines("    ", "  ", PairEntries(pairs)[i..]) ==
            PairsText(pairs, i)
    decreases |pairs| - i
  {
    hide Quoted; hide Text; hide Lines;
    var entries := PairEntries(pairs);
    if i == |pairs| {
      NoLines("    ", "  ", entries[i..]);
    } else {
      PairsTextIs(pairs, i + 1);
      LinesStep("    ", "  ", entries[i..]);
      assert entries[i..][1..] == entries[i + 1..];
      var (k, v) := pairs[i];
      TextOfString(v);
      var end := if i + 1 == |pairs| then "\n" else ",\n";
      LineJoin("    ", Quoted(k), Quoted(v), end, Lines("    ", "  ", entries[i + 1..]));
      var sep := if i > 0 then "," else "";
      var line := Quoted(k) + (": " + (Quoted(v) + PairsText(pairs, i + 1)));
      assert (if i > 0 then ",\n" else "\n") + ("    " + line) == sep + ("\n    " + line);
    }
  }

  lemma PairsDocText(pairs: seq<(bytes, bytes)>)
    ensures Text(Inner(PairEntries(pairs))) == if pairs == [] then "{}" else "{" + PairsText(pairs, 0)
  {
    hide Quoted; hide Lines; hide MembersText; hide PairsText;
    var entries := PairEntries(pairs);
    if pairs == [] {
      assert "" + "}" == "}";
    } else {
      SectionText("    ", "  ", entries);
      PairsTextIs(pairs, 0);
      assert entries[0..] == entries;
      assert "{\n" + Lines("    ", "  ", entries) == "{" + ("\n" + Lines("    ", "  ", entries));
    }
  }

  method JsonStringObject(pairs: seq<(bytes, bytes)>) returns (out: bytes)
    ensures out == Text(Inner(PairEntries(pairs)))
  {
    hide Escape; hide Text; hide Inner; hide PairEntries;
    PairsDocText(pairs);
    if |pairs| == 0 {
      return "{}";
    }
    out := "{";
    for i := 0 to |pairs|
      invariant out + PairsText(pairs, i) == "{" + PairsText(pairs, 0)
    {
      ghost var before, rest := out, PairsText(pairs, i + 1);
      if i > 0 {
        out := out + ",";
      }
      var (k, v) := pairs[i];
      var key := EscapeJson(k);
      var value := EscapeJson(v);
      out := out + "\n    \"" + key + "\": \"" + value + "\"";
      PairLine(before, i > 0, k, v, rest);
    }
    out := out + "\n  }";
  }

  lemma PairLine(out: bytes, comma: bool, k: bytes, v: bytes, rest: bytes)
    ensures (if comma then out + "," else out) + "\n    \"" + Escape(k) + "\": \"" + Escape(v) + "\"" + rest
            == out + ((if comma then "," else "") + ("\n    " + (Quoted(k) + (": " + (Quoted(v) + rest)))))
  {
    hide Escape;
  }

  // ----- the sections -----

  function BoolText(b: bool): bytes {
    if b then "true" else "false"
  }

  /** A whole section was written as the next field. */
  lemma NextLine(indent: bytes, close: bytes, entries: seq<Entry>, k: nat, all: bytes, out: bytes, before: bytes)
    requires k + 1 < |entries|
    requires out == before + FieldLine(indent, entries[k], false) && before + Lines(indent, close, entries[k..]) == all
    ensures out + Lines(indent, close, entries[k + 1..]) == all
  {
    hide Lines; hide FieldLine;
    LinesStep(indent, close, entries[k..]);
    assert entries[k..][1..] == entries[k + 1..];
    Assoc(before, FieldLine(indent, entries[k], false), Lines(indent, close, entries[k + 1..]));
  }

  lemma ServerTexts(s: ServerConfig)
    ensures var e := ServerEntries(s);
            && |e| == 7
            && e[0].0 == "bind" && Text(e[0].1) == Quoted(s.bind)
            && e[1].0 == "port" && Text(e[1].1) == Dec(s.port)
            && e[2].0 == "worker_threads" && Text(e[2].1) == Dec(s.workerThreads)
            && e[3].0 == "max_connections" && Text(e[3].1) == Dec(s.maxConnections)
            && e[4].0 == "keep_alive_secs" && Text(e[4].1) == Dec(s.keepAliveSecs)
            && e[5].0 == "read_timeout_secs" && Text(e[5].1) == Dec(s.readTimeoutSecs)
            && e[6].0 == "request_max_bytes" && Text(e[6].1) == Dec(s.requestMaxBytes)

  {
    hide Print; hide Quoted; hide Text;
    TextOfString(s.bind);
    TextOfNat(s.port);
    TextOfNat(s.workerThreads);
    TextOfNat(s.maxConnections);
    TextOfNat(s.keepAliveSecs);
    TextOfNat(s.readTimeoutSecs);
    TextOfNat(s.requestMaxBytes);
  }

  lemma ServerNamesArePlain()
    ensures Plain("bind")
    ensures Plain("port")
    ensures Plain("worker_threads")
    ensures Plain("max_connections")
    ensures Plain("keep_alive_secs")
    ensures Plain("read_timeout_secs")
    ensures Plain("request_max_bytes")
    ensures Plain("server")
  {
  }

  method AppendServer(out: bytes, s: ServerConfig) returns (r: bytes)
    ensures r == out + FieldLine("  ", ("server", Inner(ServerEntries(s))), false)
  {
    hide Lines; hide Escape; hide FieldLine; hide Print; hide Opening; hide Section; hide Listed; hide ItemsText;
    hide ServerEntries; hide Text; hide Plain;
    ServerTexts(s);
    ServerNamesArePlain();
    r := out + Opening("  ", "server");
    ghost var e := ServerEntries(s);
    ghost var all := r + Lines("    ", "  ", e);
    assert e[0..] == e && e[|e|..] == [];
    var bind := EscapeJson(s.bind);
    r := AppendField(r, "    ", "bind", "\"" + bind + "\"", false, "  ", e, 0, all);
    r := AppendField(r, "    ", "port", Dec(s.port), false, "  ", e, 1, all);
    r := AppendField(r, "    ", "worker_threads", Dec(s.workerThreads), false, "  ", e, 2, all);
    r := AppendField(r, "    ", "max_connections", Dec(s.maxConnections), false, "  ", e, 3, all);
    r := AppendField(r, "    ", "keep_alive_secs", Dec(s.keepAliveSecs), false, "  ", e, 4, all);
    r := AppendField(r, "    ", "read_timeout_secs", Dec(s.readTimeoutSecs), false, "  ", e, 5, all);
    r := AppendField(r, "    ", "request_max_bytes", Dec(s.requestMaxBytes), true, "  ", e, 6, all);
    Enclosed(out, "  ", "server", r, "    ", "  ", e);
    r := r + "  },\n";
  }

  lemma StaticTexts(s: StaticConfig)
    ensures var e := StaticEntries(s);
            && |e| == 4
            && e[0].0 == "root" && Text(e[0].1) == Quoted(s.root)
            && e[1].0 == "index_files" && Text(e[1].1) == Text(StringsDoc(s.indexFiles))
            && e[2].0 == "follow_symlinks" && Text(e[2].1) == BoolText(s.followSymlinks)
            && e[3].0 == "directory_listing" && Text(e[3].1) == BoolText(s.directoryListing)
  {
    hide StringsDoc; hide TextDoc; hide Quoted;
    TextOfString(s.root);
  }

  lemma StaticNamesArePlain()
    ensures Plain("static")
    ensures Plain("root")
    ensures Plain("index_files")
    ensures Plain("follow_symlinks")
    ensures Plain("directory_listing")
  {
  }

  method AppendStatic(out: bytes, s: StaticConfig) returns (r: bytes)
    ensures r == out + FieldLine("  ", ("static", Inner(StaticEntries(s))), false)
  {
    hide Lines; hide Escape; hide FieldLine; hide Print; hide Opening; hide Section; hide Listed; hide ItemsText;
    hide Canonical; hide Spelled; hide NumeralText; hide MeaningOf; hide TextOf;
    hide StaticEntries; hide Text; hide Plain; hide BoolText;
    StaticTexts(s);
    StaticNamesArePlain();
    r := out + Opening("  ", "static");
    ghost var e := StaticEntries(s);
    ghost var all := r + Lines("    ", "  ", e);
    assert e[0..] == e && e[|e|..] == [];
    var root := EscapeJson(s.root);
    r := AppendField(r, "    ", "root", "\"" + root + "\"", false, "  ", e, 0, all);
    var indexFiles := JsonStringArray(s.indexFiles);
    r := AppendField(r, "    ", "index_files", indexFiles, false, "  ", e, 1, all);
    r := AppendField(r, "    ", "follow_symlinks", BoolText(s.followSymlinks), false, "  ", e, 2, all);
    r := AppendField(r, "    ", "directory_listing", BoolText(s.directoryListing), true, "  ", e, 3, all);
    Enclosed(out, "  ", "static", r, "    ", "  ", e);
    r := r + "  },\n";
  }

  method AppendCompression(out: bytes, c: CompressionConfig) returns (r: bytes)
    ensures r == out + FieldLine("  ", ("compression", Inner(CompressionEntries(c))), false)
  {
    hide Lines; hide Escape; hide FieldLine; hide Print; hide Opening; hide Section; hide Listed; hide ItemsText;
    hide Canonical; hide Spelled; hide NumeralText; hide MeaningOf; hide TextOf;
    TextOfNat(c.minBytes);
    r := out + Opening("  ", "compression");
    ghost var e := CompressionEntries(c);
    ghost var all := r + Lines("    ", "  ", e);
    assert e[0..] == e && e[|e|..] == [];
    r := AppendField(r, "    ", "gzip", BoolText(c.gzip), false, "  ", e, 0, all);
    r := AppendField(r, "    ", "min_bytes", Dec(c.minBytes), true, "  ", e, 1, all);
    Enclosed(out, "  ", "compression", r, "    ", "  ", e);
    r := r + "  },\n";
  }

  lemma RateLimitTexts(l: RateLimitConfig)
    ensures var e := RateLimitEntries(l);
            && |e| == 4
            && e[0].0 == "enabled" && Text(e[0].1) == BoolText(l.enabled)
            && e[1].0 == "requests" && Text(e[1].1) == Dec(l.requests)
            && e[2].0 == "window_secs" && Text(e[2].1) == Dec(l.windowSecs)
            && e[3].0 == "ban_secs" && Text(e[3].1) == Dec(l.banSecs)
  {
    hide NatDoc; hide Print;
    TextOfNat(l.requests);
    TextOfNat(l.windowSecs);
    TextOfNat(l.banSecs);
  }

  lemma RateLimitNamesArePlain()
    ensures Plain("rate_limit")
    ensures Plain("enabled")
    ensures Plain("requests")
    ensures Plain("window_secs")
    ensures Plain("ban_secs")
  {
  }

  method AppendRateLimit(out: bytes, l: RateLimitConfig) returns (r: bytes)
    ensures r == out + FieldLine("    ", ("rate_limit", Section("      ", "    ", RateLimitEntries(l))), false)
  {
    hide Lines; hide Escape; hide FieldLine; hide Print; hide Opening; hide Section; hide Listed; hide ItemsText;
    hide Canonical; hide Spelled; hide NumeralText; hide MeaningOf; hide TextOf;
    hide RateLimitEntries; hide Text; hide Plain; hide BoolText;
    RateLimitTexts(l);
    RateLimitNamesArePlain();
    r := out + Opening("    ", "rate_limit");
    ghost var e := RateLimitEntries(l);
    ghost var all := r + Lines("      ", "    ", e);
    assert e[0..] == e && e[|e|..] == [];
    r := AppendField(r, "      ", "enabled", BoolText(l.enabled), false, "    ", e, 0, all);
    r := AppendField(r, "      ", "requests", Dec(l.requests), false, "    ", e, 1, all);
    r := AppendField(r, "      ", "window_secs", Dec(l.windowSecs), false, "    ", e, 2, all);
    r := AppendField(r, "      ", "ban_secs", Dec(l.banSecs), true, "    ", e, 3, all);
    Enclosed(out, "    ", "rate_limit", r, "      ", "    ", e);
    r := r + "    },\n";
  }

  lemma SecurityTexts(s: SecurityConfig)
    ensures var e := SecurityEntries(s);
            && |e| == 3
            && e[0].0 == "enable_security_headers" && Text(e[0].1) == BoolText(s.enableSecurityHeaders)
            && e[1].0 == "rate_limit"
            && e[2].0 == "blocked_patterns" && Text(e[2].1) == Text(StringsDoc(s.blockedPatterns))
            && e[1].1 == Section("      ", "    ", RateLimitEntries(s.rateLimit))
  {
    hide StringsDoc; hide Section; hide RateLimitEntries;
  }

  lemma SecurityNamesArePlain()
    ensures Plain("security")
    ensures Plain("enable_security_headers")
    ensures Plain("rate_limit")
    ensures Plain("blocked_patterns")
  {
  }

  method AppendSecurity(out: bytes, s: SecurityConfig) returns (r: bytes)
    ensures r == out + FieldLine("  ", ("security", Inner(SecurityEntries(s))), false)
  {
    hide Lines; hide Escape; hide FieldLine; hide Print; hide Opening; hide Section; hide Listed; hide ItemsText;
    hide Canonical; hide Spelled; hide NumeralText; hide MeaningOf; hide TextOf;
    hide SecurityEntries; hide RateLimitEntries; hide Text; hide Plain; hide BoolText;
    SecurityTexts(s);
    SecurityNamesArePlain();
    r := out + Opening("  ", "security");
    ghost var e := SecurityEntries(s);
    ghost var all := r + Lines("    ", "  ", e);
    assert e[0..] == e && e[|e|..] == [];
    r := AppendField(r, "    ", "enable_security_headers", BoolText(s.enableSecurityHeaders), false, "  ", e, 0, all);
    ghost var before := r;
    r := AppendRateLimit(r, s.rateLimit);
    NextLine("    ", "  ", e, 1, all, r, before);
    var blockedPatterns := JsonStringArray(s.blockedPatterns);
    r := AppendField(r, "    ", "blocked_patterns", blockedPatterns, true, "  ", e, 2, all);
    Enclosed(out, "  ", "security", r, "    ", "  ", e);
    r := r + "  },\n";
  }

  method AppendTls(out: bytes, t: TlsConfig) returns (r: bytes)
    ensures r == out + FieldLine("  ", ("tls", Inner(TlsEntries(t))), false)
  {
    hide Lines; hide Escape; hide FieldLine; hide Print; hide Opening; hide Section; hide Listed; hide ItemsText;
    hide Canonical; hide Spelled; hide NumeralText; hide MeaningOf; hide TextOf;
    TextOfString(t.certPath);
    TextOfString(t.keyPath);
    r := out + Opening("  ", "tls");
    ghost var e := TlsEntries(t);
    ghost var all := r + Lines("    ", "  ", e);
    assert e[0..] == e && e[|e|..] == [];
    r := AppendField(r, "    ", "enabled", BoolText(t.enabled), false, "  ", e, 0, all);
    var certPath := EscapeJson(t.certPath);
    r := AppendField(r, "    ", "cert_path", "\"" + certPath + "\"", false, "  ", e, 1, all);
    var keyPath := EscapeJson(t.keyPath);
    r := AppendField(r, "    ", "key_path", "\"" + keyPath + "\"", true, "  ", e, 2, all);
    Enclosed(out, "  ", "tls", r, "    ", "  ", e);
    r := r + "  },\n";
  }

  method AppendAdmin(out: bytes, a: AdminConfig) returns (r: bytes)
    ensures r == out + FieldLine("  ", ("admin", Inner(AdminEntries(a))), false)
  {
    hide Lines; hide Escape; hide FieldLine; hide Print; hide Opening; hide Section; hide Listed; hide ItemsText;
    hide Canonical; hide Spelled; hide NumeralText; hide MeaningOf; hide TextOf;
    TextOfString(a.username);
    TextOfString(a.passwordSha256);
    r := out + Opening("  ", "admin");
    ghost var e := AdminEntries(a);
    ghost var all := r + Lines("    ", "  ", e);
    assert e[0..] == e && e[|e|..] == [];
    var username := EscapeJson(a.username);
    r := AppendField(r, "    ", "username", "\"" + username + "\"", false, "  ", e, 0, all);
    var passwordSha256 := EscapeJson(a.passwordSha256);
    r := AppendField(r, "    ", "password_sha256", "\"" + passwordSha256 + "\"", true, "  ", e, 1, all);
    Enclosed(out, "  ", "admin", r, "    ", "  ", e);
    r := r + "  },\n";
  }

  method AppendLogging(out: bytes, l: LoggingConfig) returns (r: bytes)
    ensures r == out + FieldLine("  ", ("logging", Inner(LoggingEntries(l))), false)
  {
    hide Lines; hide Escape; hide FieldLine; hide Print; hide Opening; hide Section; hide Listed; hide ItemsText;
    hide Canonical; hide Spelled; hide NumeralText; hide MeaningOf; hide TextOf;
    TextOfString(l.level);
    r := out + Opening("  ", "logging");
    ghost var e := LoggingEntries(l);
    ghost var all := r + Lines("    ", "  ", e);
    assert e[0..] == e && e[|e|..] == [];
    var level := EscapeJson(l.level);
    r := AppendField(r, "    ", "level", "\"" + level + "\"", false, "  ", e, 0, all);
    r := AppendField(r, "    ", "access_log", BoolText(l.accessLog), true, "  ", e, 1, all);
    Enclosed(out, "  ", "logging", r, "    ", "  ", e);
    r := r + "  },\n";
  }

  method ToJsonString(c: Config) returns (out: bytes)
    ensures out == Text(ConfigDoc(c)) + "\n"
  {
    hide Lines; hide Escape; hide FieldLine; hide Section; hide ServerEntries; hide StaticEntries;
    hide CompressionEntries;
    hide SecurityEntries; hide TlsEntries; hide AdminEntries; hide LoggingEntries; hide Text;
    ghost var e := ConfigEntries(c);
    out := "{\n";
    ghost var all := out + Lines("  ", "", e);
    assert e[0..] == e && e[|e|..] == [];
    out := AppendServer(out, c.server);
    NextLine("  ", "", e, 0, all, out, "{\n");
    ghost var before := out;
    out := AppendStatic(out, c.staticFiles);
    NextLine("  ", "", e, 1, all, out, before);
    before := out;
    out := AppendCompression(out, c.compression);
    NextLine("  ", "", e, 2, all, out, before);
    before := out;
    out := AppendSecurity(out, c.security);
    NextLine("  ", "", e, 3, all, out, before);
    before := out;
    out := AppendTls(out, c.tls);
    NextLine("  ", "", e, 4, all, out, before);
    before := out;
    out := AppendAdmin(out, c.admin);
    NextLine("  ", "", e, 5, all, out, before);
    before := out;
    out := AppendLogging(out, c.logging);
    NextLine("  ", "", e, 6, all, out, before);
    var mime := JsonStringObject(c.mimeOverrides);
    out := AppendField(out, "  ", "mime_overrides", mime, true, "", e, 7, all);
    NoLines("  ", "", []);
    SectionText("  ", "", e);
    assert out + ("" + "}") == out + "}";
    before := out;
    out := out + "}\n";
    assert out == (before + "}") + "\n";
  }
}
