/** Conditional and range requests over static responses (sections 13 and 14 of
    RFC 9110), and the validators that static files carry. */
module Conditional {
  import opened Bytes
  import opened Ascii
  import opened Numerals
  import opened Utf8
  import opened Http
  import opened Responses
  import ResponseReader
  import opened HttpDate

  // ----- validators of a static file -----

  /** The strong validator of a file: its length and modification time. */
  function Etag(length: nat, mtime: nat): bytes {
    "\"" + (Hex(length) + ("-" + (Hex(mtime) + "\"")))
  }

  function FileResponse(contentType: bytes, body: bytes, mtime: Option<nat>): Response {
    var base := Response(200, [], body).WithHeader("Content-Type", contentType).WithHeader("Accept-Ranges", "bytes");
    match mtime
    case None => base
    case Some(t) => base.WithHeader("Last-Modified", HttpDateOf(t)).WithHeader("ETag", Etag(|body|, t))
  }

  // ----- preconditions -----

  function StripWeak(tag: bytes): bytes {
    if "W/" <= tag then tag[2..] else tag
  }

  predicate WeakEq(a: bytes, b: bytes) {
    StripWeak(a) == StripWeak(b)
  }

  predicate NotModified(request: Request, response: Response) {
    match request.Field("if-none-match")
    case Some(list) =>
      var tag := response.Field("etag");
      Trim(list) == "*" || (tag.Some? && exists part :: part in SplitOn(list, ',') && WeakEq(Trim(part), tag.value))
    case None =>
      match (request.Field("if-modified-since"), response.Field("last-modified"))
      case (Some(since), Some(modified)) =>
        (match (ParseHttpDate(since), ParseHttpDate(modified))
         case (Some(s), Some(m)) => m <= s
         case _ => false)
      case _ => false
  }

  /** Copies the first value of each named field, where there is one. */
  function WithCopied(to: Response, from: Response, names: seq<bytes>): Response
    decreases |names|
  {
    if names == [] then to
    else
      var next := match from.Field(names[0]) case Some(v) => to.WithHeader(names[0], v) case None => to;
      WithCopied(next, from, names[1..])
  }

  method CopyFields(to: Response, from: Response, names: seq<bytes>) returns (r: Response)
    ensures r == WithCopied(to, from, names)
  {
    r := to;
    for k := 0 to |names|
      invariant WithCopied(r, from, names[k..]) == WithCopied(to, from, names)
    {
      assert names[k..][1..] == names[k + 1..];
      var value := from.Field(names[k]);
      if value.Some? {
        r := r.WithHeader(names[k], value.value);
      }
    }
  }

  function NotModifiedResponse(response: Response): Response {
    WithCopied(Response(304, [], []), response, ["ETag", "Last-Modified", "Cache-Control", "Vary"])
  }

  // ----- ranges -----

  datatype RangeOutcome = Satisfiable(start: nat, end: nat) | Unsatisfiable

  /** A single byte range against a length; a satisfiable one lies within it. */
  function ParseSingleRange(value: bytes, length: nat): (r: Option<RangeOutcome>)
    ensures r.Some? && r.value.Satisfiable? ==> r.value.start <= r.value.end < length
  {
    if !("bytes=" <= value) then None
    else
      var spec := Trim(value[6..]);
      if ',' in spec then None
      else
        match IndexOf(spec, '-')
        case None => None
        case Some(dash) =>
          var first, last := Trim(spec[..dash]), Trim(spec[dash + 1..]);
          if first == [] then
            match ParseU64(last)
            case None => None
            case Some(n) =>
              if n == 0 || length == 0 then Some(Unsatisfiable)
              else Some(Satisfiable(if n <= length then length - n else 0, length - 1))
          else
            match ParseU64(first)
            case None => None
            case Some(start) =>
              if start >= length then Some(Unsatisfiable)
              else if last == [] then Some(Satisfiable(start, length - 1))
              else
                match ParseU64(last)
                case None => None
                case Some(requested) =>
                  if requested < start then Some(Unsatisfiable)
                  else Some(Satisfiable(start, if requested <= length - 1 then requested else length - 1))
  }

  function Partial(response: Response, start: nat, end: nat): Response
    requires start <= end < |response.body|
  {
    var range := "bytes " + Dec(start) + "-" + Dec(end) + "/" + Dec(|response.body|);
    var base := Response(206, [], []).WithHeader("Accept-Ranges", "bytes").WithHeader("Content-Range", range);
    WithCopied(base, response, ["Content-Type", "ETag", "Last-Modified"]).(body := response.body[start..end + 1])
  }

  function ApplyRange(request: Request, response: Response): Response {
    match request.Field("range")
    case None => response
    case Some(range) =>
      match ParseSingleRange(range, |response.body|)
      case Some(Satisfiable(start, end)) => Partial(response, start, end)
      case Some(Unsatisfiable) => Response(416, [], []).WithHeader("Content-Range", "bytes */" + Dec(|response.body|))
      case None => response
  }

  function Evaluated(request: Request, response: Response): Response {
    if response.status != 200 then response
    else if NotModified(request, response) then NotModifiedResponse(response)
    else ApplyRange(request, response)
  }

  method Evaluate(request: Request, response: Response) returns (r: Response)
    ensures r == Evaluated(request, response)
  {
    hide NotModified; hide ParseSingleRange; hide WithCopied; hide Print;
    if response.status != 200 {
      return response;
    }
    if NotModified(request, response) {
      r := CopyFields(Response(304, [], []), response, ["ETag", "Last-Modified", "Cache-Control", "Vary"]);
      return;
    }
    var range := request.Field("range");
    if range.None? {
      return response;
    }
    var length := |response.body|;
    var outcome := ParseSingleRange(range.value, length);
    match outcome
    case Some(Satisfiable(start, end)) =>
      r := Response(206, [], []).WithHeader("Accept-Ranges", "bytes")
           .WithHeader("Content-Range", "bytes " + Dec(start) + "-" + Dec(end) + "/" + Dec(length));
      r := CopyFields(r, response, ["Content-Type", "ETag", "Last-Modified"]);
      r := r.(body := response.body[start..end + 1]);
    case Some(Unsatisfiable) =>
      r := Response(416, [], []).WithHeader("Content-Range", "bytes */" + Dec(length));
    case None =>
      r := response;
  }

  // ----- what is carried over -----

  /** Names are compared without regard to case. */
  predicate Lists(names: seq<bytes>, key: bytes) {
    exists k :: 0 <= k < |names| && EqIgnoreCase(names[k], key)
  }

  lemma {:induction false} SameKey(headers: seq<Header>, a: bytes, b: bytes)
    requires EqIgnoreCase(a, b)
    ensures Named(headers, a) == Named(headers, b)
  {
    if headers != [] {
      SameKey(headers[1..], a, b);
      assert EqIgnoreCase(headers[0].name, a) <==> EqIgnoreCase(headers[0].name, b);
    }
  }

  lemma FieldAdded(r: Response, name: bytes, value: bytes, key: bytes)
    ensures r.WithHeader(name, value).Field(key) ==
            if r.Field(key).Some? then r.Field(key) else if EqIgnoreCase(name, key) then Some(value) else None
  {
    hide EqIgnoreCase;
    var h := Header(name, value);
    ResponseReader.NamedAppend(r.headers, [h], key);
    assert [h][1..] == [];
  }

  /** A lookup after copying finds what was there before, or else what was copied. */
  lemma {:induction false} CopiedField(to: Response, from: Response, names: seq<bytes>, key: bytes)
    ensures WithCopied(to, from, names).Field(key) ==
            if to.Field(key).Some? then to.Field(key) else if Lists(names, key) then from.Field(key) else None
    decreases |names|
  {
    hide EqIgnoreCase; hide Response.Field;
    if names != [] {
      var value := from.Field(names[0]);
      var next := match value case Some(v) => to.WithHeader(names[0], v) case None => to;
      if value.Some? {
        FieldAdded(to, names[0], value.value, key);
      }
      CopiedField(next, from, names[1..], key);
      ListsFirst(names, key);
      if EqIgnoreCase(names[0], key) {
        SameField(from, names[0], key);
      }
    }
  }

  lemma ListsFirst(names: seq<bytes>, key: bytes)
    requires names != []
    ensures Lists(names, key) <==> EqIgnoreCase(names[0], key) || Lists(names[1..], key)
  {
    hide EqIgnoreCase;
    if Lists(names, key) && !EqIgnoreCase(names[0], key) {
      var k :| 0 <= k < |names| && EqIgnoreCase(names[k], key);
      assert names[1..][k - 1] == names[k];
    }
  }

  lemma SameField(r: Response, a: bytes, b: bytes)
    requires EqIgnoreCase(a, b)
    ensures r.Field(a) == r.Field(b)
  {
    SameKey(r.headers, a, b);
  }

  /** A 304 has no body, and of the fields exactly the four validators and cache
      controls. */
  lemma NotModifiedFields(request: Request, response: Response, key: bytes)
    requires response.status == 200 && NotModified(request, response)
    ensures var r := Evaluated(request, response);
            && r.body == []
            && r.Field(key) ==
               if Lists(["ETag", "Last-Modified", "Cache-Control", "Vary"], key) then response.Field(key) else None
  {
    hide NotModified; hide WithCopied; hide Lists;
    var names := ["ETag", "Last-Modified", "Cache-Control", "Vary"];
    CopiedKeeps(Response(304, [], []), response, names);
    CopiedField(Response(304, [], []), response, names, key);
  }

  lemma PartialField(response: Response, start: nat, end: nat, key: bytes)
    requires start <= end < |response.body| && key in ["content-range", "content-type", "etag", "last-modified"]
    ensures Partial(response, start, end).Field(key) ==
            if key == "content-range" then Some("bytes " + Dec(start) + "-" + Dec(end) + "/" + Dec(|response.body|))
            else response.Field(key)
  {
    hide EqIgnoreCase; hide Response.Field; hide WithCopied; hide Print; hide Lists;
    var text := "bytes " + Dec(start) + "-" + Dec(end) + "/" + Dec(|response.body|);
    var names := ["Content-Type", "ETag", "Last-Modified"];
    var empty := Response(206, [], []);
    var ranged := empty.WithHeader("Accept-Ranges", "bytes");
    var base := ranged.WithHeader("Content-Range", text);
    NoField(206, key);
    RangeNames(key);
    CopiedNames();
    FieldAdded(empty, "Accept-Ranges", "bytes", key);
    FieldAdded(ranged, "Content-Range", text, key);
    CopiedField(base, response, names, key);
    BodyKeepsFields(WithCopied(base, response, names), response.body[start..end + 1], key);
  }

  /** The fields of a partial response: where its bytes belong, and what the full
      response says of its type and version. */
  lemma PartialFields(response: Response, start: nat, end: nat)
    requires start <= end < |response.body|
    ensures var r := Partial(response, start, end);
            && r.Field("content-range") == Some("bytes " + Dec(start) + "-" + Dec(end) + "/" + Dec(|response.body|))
            && r.Field("content-type") == response.Field("content-type")
            && r.Field("etag") == response.Field("etag") && r.Field("last-modified") == response.Field("last-modified")
  {
    hide Response.Field; hide Partial; hide Print;
    PartialField(response, start, end, "content-range");
    PartialField(response, start, end, "content-type");
    PartialField(response, start, end, "etag");
    PartialField(response, start, end, "last-modified");
    assert "etag" != "content-range";
    assert "last-modified"[0] != "content-range"[0];
    assert "content-type" != "content-range";
  }

  lemma NoField(status: nat, key: bytes)
    ensures Response(status, [], []).Field(key) == None
  {
  }

  lemma BodyKeepsFields(r: Response, body: bytes, key: bytes)
    ensures r.(body := body).Field(key) == r.Field(key)
  {
  }

  lemma RangeNames(key: bytes)
    requires key in ["content-range", "content-type", "etag", "last-modified"]
    ensures !EqIgnoreCase("Accept-Ranges", key)
    ensures EqIgnoreCase("Content-Range", key) <==> key == "content-range"
  {
    hide EqIgnoreCase;
    SameRangeName();
    if |key| == 13 {
      OtherStart("Accept-Ranges", key);
      if key != "content-range" {
        OtherStart("Content-Range", key);
      }
    } else {
      OtherLength("Accept-Ranges", key);
      OtherLength("Content-Range", key);
    }
  }

  lemma SameRangeName()
    ensures EqIgnoreCase("Content-Range", "content-range")
  {
  }

  lemma CopiedNames()
    ensures Lists(["Content-Type", "ETag", "Last-Modified"], "content-type")
    ensures Lists(["Content-Type", "ETag", "Last-Modified"], "etag")
    ensures Lists(["Content-Type", "ETag", "Last-Modified"], "last-modified")
  {
    var names := ["Content-Type", "ETag", "Last-Modified"];
    assert EqIgnoreCase(names[0], "content-type") && EqIgnoreCase(names[1], "etag")
        && EqIgnoreCase(names[2], "last-modified");
  }

  // ----- revalidation by date -----

  lemma {:induction false} CopiedKeeps(to: Response, from: Response, names: seq<bytes>)
    ensures WithCopied(to, from, names).status == to.status && WithCopied(to, from, names).body == to.body
    decreases |names|
  {
    hide Response.Field;
    if names != [] {
      var next := match from.Field(names[0]) case Some(v) => to.WithHeader(names[0], v) case None => to;
      CopiedKeeps(next, from, names[1..]);
    }
  }

  /** A range never answers 304. */
  lemma StatusTells(request: Request, response: Response)
    requires response.status == 200
    ensures Evaluated(request, response).status == 304 <==> NotModified(request, response)
  {
    hide NotModified; hide ParseSingleRange; hide WithCopied; hide Print;
    CopiedKeeps(Response(304, [], []), response, ["ETag", "Last-Modified", "Cache-Control", "Vary"]);
    if !NotModified(request, response) {
      RangeStatus(request, response);
    }
  }

  lemma RangeStatus(request: Request, response: Response)
    requires response.status == 200
    ensures ApplyRange(request, response).status in {200, 206, 416}
  {
    hide WithCopied; hide Print; hide Trim; hide ParseU64; hide IndexOf;
    var range := request.Field("range");
    if range.Some? {
      match ParseSingleRange(range.value, |response.body|)
      case Some(Satisfiable(start, end)) =>
        var text := "bytes " + Dec(start) + "-" + Dec(end) + "/" + Dec(|response.body|);
        CopiedKeeps(Response(206, [], []).WithHeader("Accept-Ranges", "bytes").WithHeader("Content-Range", text),
                    response, ["Content-Type", "ETag", "Last-Modified"]);
      case _ =>
    }
  }

  lemma FileFields(contentType: bytes, body: bytes, mtime: nat)
    ensures var r := FileResponse(contentType, body, Some(mtime));
            && r.Field("last-modified") == Some(HttpDateOf(mtime)) && r.Field("etag") == Some(Etag(|body|, mtime))
            && r.status == 200 && r.body == body
  {
    hide HttpDateOf; hide Etag;
    var r := FileResponse(contentType, body, Some(mtime));
    var h := r.headers;
    assert h == [Header("Content-Type", contentType), Header("Accept-Ranges", "bytes"),
                 Header("Last-Modified", HttpDateOf(mtime)), Header("ETag", Etag(|body|, mtime))];
    NamesDiffer();
    NamedFirst(h, "last-modified", 2);
    NamedFirst(h, "etag", 3);
  }

  lemma NamesDiffer()
    ensures !EqIgnoreCase("Content-Type", "last-modified") && !EqIgnoreCase("Content-Type", "etag")
    ensures !EqIgnoreCase("Accept-Ranges", "last-modified") && !EqIgnoreCase("Accept-Ranges", "etag")
    ensures EqIgnoreCase("Last-Modified", "last-modified") && !EqIgnoreCase("Last-Modified", "etag")
    ensures EqIgnoreCase("ETag", "etag") && !EqIgnoreCase("ETag", "last-modified")
  {
    hide EqIgnoreCase;
    OtherLength("Content-Type", "last-modified");
    OtherLength("Content-Type", "etag");
    OtherStart("Accept-Ranges", "last-modified");
    OtherLength("Accept-Ranges", "etag");
    OtherLength("Last-Modified", "etag");
    OtherLength("ETag", "last-modified");
    SameName();
  }

  lemma OtherLength(a: bytes, b: bytes)
    requires |a| != |b|
    ensures !EqIgnoreCase(a, b)
  {
  }

  lemma OtherStart(a: bytes, b: bytes)
    requires a != [] && b != [] && ToLower(a[0]) != ToLower(b[0])
    ensures !EqIgnoreCase(a, b)
  {
  }

  lemma SameName()
    ensures EqIgnoreCase("Last-Modified", "last-modified") && EqIgnoreCase("ETag", "etag")
  {
  }

  /** Without If-None-Match, a client whose copy is as of time `since` is told
      that it is current exactly when the file was not modified after that. */
  lemma RevalidationByDate(request: Request, contentType: bytes, body: bytes, mtime: nat, since: nat)
    requires mtime <= U64_MAX && since <= U64_MAX
    requires request.Field("if-none-match").None? && request.Field("if-modified-since") == Some(HttpDateOf(since))
    ensures Evaluated(request, FileResponse(contentType, body, Some(mtime))).status == 304 <==> mtime <= since
  {
    hide HttpDateOf; hide ParseHttpDate; hide FileResponse; hide Evaluated;
    FileFields(contentType, body, mtime);
    StatusTells(request, FileResponse(contentType, body, Some(mtime)));
    DateReads(mtime);
    DateReads(since);
  }

  // ----- revalidation by entity tag -----

  /** A listed tag: optionally weak, of some file, with whitespace around it. */
  datatype ListedTag = ListedTag(before: bytes, weak: bool, length: nat, mtime: nat, after: bytes) {
    function Core(): bytes {
      (if weak then "W/" else "") + Etag(length, mtime)
    }

    function Text(): bytes {
      before + Core() + after
    }
  }

  function ListText(tags: seq<ListedTag>): bytes
    requires |tags| > 0
    decreases |tags|
  {
    if |tags| == 1 then tags[0].Text() else tags[0].Text() + "," + ListText(tags[1..])
  }

  predicate Spaced(t: ListedTag) {
    AllOws(t.before) && AllOws(t.after)
  }

  function Texts(tags: seq<ListedTag>): seq<bytes> {
    seq(|tags|, i requires 0 <= i < |tags| => tags[i].Text())
  }

  lemma HexIsPlain(s: bytes)
    requires AllHex(s)
    ensures ',' !in s && '-' !in s
  {
  }

  /** A file's tag determines its length and modification time. */
  lemma EtagInjective(length: nat, mtime: nat, otherLength: nat, otherMtime: nat)
    requires Etag(length, mtime) == Etag(otherLength, otherMtime)
    ensures length == otherLength && mtime == otherMtime
  {
    hide Print; hide Etag; hide SplitOn; hide Value;
    EtagParts(length, mtime);
    EtagParts(otherLength, otherMtime);
    assert [Hex(length), Hex(mtime)][0] == [Hex(otherLength), Hex(otherMtime)][0];
    assert [Hex(length), Hex(mtime)][1] == [Hex(otherLength), Hex(otherMtime)][1];
    ValueOfPrint(length, 16);
    ValueOfPrint(mtime, 16);
    ValueOfPrint(otherLength, 16);
    ValueOfPrint(otherMtime, 16);
  }

  lemma EtagParts(length: nat, mtime: nat)
    ensures var tag := Etag(length, mtime);
            && |tag| >= 5 && tag[0] == '"' && tag[|tag| - 1] == '"'
            && SplitOn(tag[1..|tag| - 1], '-') == [Hex(length), Hex(mtime)]
  {
    hide Print; hide SplitOn;
    var tag := Etag(length, mtime);
    HexIsPlain(Hex(length));
    HexIsPlain(Hex(mtime));
    assert tag[1..|tag| - 1] == Hex(length) + "-" + Hex(mtime);
    SplitOnFirst(Hex(length), '-', Hex(mtime));
    SplitOnFirst(Hex(mtime), '-', []);
  }

  lemma TagReads(t: ListedTag)
    requires Spaced(t)
    ensures ',' !in t.Text() && Trim(t.Text()) == t.Core() && StripWeak(t.Core()) == Etag(t.length, t.mtime)
  {
    hide Print; hide Trim; hide SplitOn;
    var tag := Etag(t.length, t.mtime);
    EtagParts(t.length, t.mtime);
    HexIsPlain(Hex(t.length));
    HexIsPlain(Hex(t.mtime));
    assert ',' !in tag;
    assert tag[0] != 'W';
    assert ("W/" + tag)[2..] == tag && "W/" <= "W/" + tag;
    TrimAround(t.before, t.Core(), t.after);
  }

  lemma {:induction false} ListSplits(tags: seq<ListedTag>)
    requires |tags| > 0 && forall t :: t in tags ==> Spaced(t)
    ensures SplitOn(ListText(tags), ',') == Texts(tags)
    decreases |tags|
  {
    hide SplitOn; hide ListedTag.Text; hide Spaced;
    TagReads(tags[0]);
    if |tags| == 1 {
      SplitOnFirst(tags[0].Text(), ',', []);
    } else {
      SplitOnFirst(tags[0].Text(), ',', ListText(tags[1..]));
      ListSplits(tags[1..]);
      assert Texts(tags) == [tags[0].Text()] + Texts(tags[1..]);
    }
  }

  /** Whatever the spacing, a list of tags is never the wildcard. */
  lemma ListIsNoStar(tags: seq<ListedTag>)
    requires |tags| > 0 && forall t :: t in tags ==> Spaced(t)
    ensures Trim(ListText(tags)) != "*"
  {
    hide Print; hide Trim; hide ListText; hide Etag;
    var t := tags[0];
    EtagParts(t.length, t.mtime);
    var pre, rest, post := ListEnds(tags);
    assert ListText(tags) == pre + rest + post;
    TrimAround(pre, rest, post);
  }

  /** A list without the whitespace at its two ends. */
  lemma {:induction false} ListEnds(tags: seq<ListedTag>) returns (pre: bytes, rest: bytes, post: bytes)
    requires |tags| > 0 && forall t :: t in tags ==> Spaced(t)
    ensures AllOws(pre) && AllOws(post) && ListText(tags) == pre + rest + post
    ensures |rest| > 1 && IsSolid(rest[0]) && IsSolid(rest[|rest| - 1])
    decreases |tags|
  {
    hide IsSolid; hide ListedTag.Core; hide AllOws; hide Etag;
    var t := tags[0];
    assert Spaced(t);
    CoreIsSolid(t);
    pre := t.before;
    if |tags| == 1 {
      rest, post := t.Core(), t.after;
    } else {
      var morePre, moreRest, morePost := ListEnds(tags[1..]);
      rest := t.Core() + t.after + "," + morePre + moreRest;
      post := morePost;
      assert ListText(tags) == pre + rest + post;
    }
  }

  lemma CoreIsSolid(t: ListedTag)
    ensures var core := t.Core(); |core| > 1 && IsSolid(core[0]) && IsSolid(core[|core| - 1])
  {
    hide Print; hide Etag; hide SplitOn;
    EtagParts(t.length, t.mtime);
  }

  /** A client that lists tags it holds, weak or strong, however spaced, is told
      that its copy is current exactly when one of them is of a file with the
      same length and modification time. */
  lemma RevalidationByTag(request: Request, contentType: bytes, body: bytes, mtime: nat, tags: seq<ListedTag>)
    requires |tags| > 0 && forall t :: t in tags ==> Spaced(t)
    requires request.Field("if-none-match") == Some(ListText(tags))
    ensures Evaluated(request, FileResponse(contentType, body, Some(mtime))).status == 304
            <==> exists t :: t in tags && t.length == |body| && t.mtime == mtime
  {
    hide FileResponse; hide Evaluated; hide SplitOn; hide Trim; hide Etag; hide ListText; hide Spaced;
    hide ListedTag.Text;
    hide WeakEq; hide ListedTag.Core; hide Texts; hide ParseHttpDate;
    var response := FileResponse(contentType, body, Some(mtime));
    var own, list := Etag(|body|, mtime), ListText(tags);
    FileFields(contentType, body, mtime);
    StatusTells(request, response);
    ListSplits(tags);
    ListIsNoStar(tags);
    forall t | t in tags ensures WeakEq(Trim(t.Text()), own) <==> t.length == |body| && t.mtime == mtime {
      TagMatches(t, |body|, mtime);
    }
    SomeTagMatches(tags, own, |body|, mtime);
  }

  lemma TagMatches(t: ListedTag, length: nat, mtime: nat)
    requires Spaced(t)
    ensures WeakEq(Trim(t.Text()), Etag(length, mtime)) <==> t.length == length && t.mtime == mtime
  {
    hide StripWeak; hide Etag; hide Trim; hide ListedTag.Text; hide ListedTag.Core; hide Spaced;
    TagReads(t);
    OwnTagIsStrong(length, mtime);
    if Etag(t.length, t.mtime) == Etag(length, mtime) {
      EtagInjective(t.length, t.mtime, length, mtime);
    }
  }

  lemma SomeTagMatches(tags: seq<ListedTag>, own: bytes, length: nat, mtime: nat)
    requires |tags| > 0 && SplitOn(ListText(tags), ',') == Texts(tags)
    requires forall t :: t in tags ==> (WeakEq(Trim(t.Text()), own) <==> t.length == length && t.mtime == mtime)
    ensures (exists part :: part in SplitOn(ListText(tags), ',') && WeakEq(Trim(part), own))
            <==> exists t :: t in tags && t.length == length && t.mtime == mtime
  {
    hide SplitOn; hide Trim; hide WeakEq; hide ListText; hide ListedTag.Text;
    var list := ListText(tags);
    if exists t :: t in tags && t.length == length && t.mtime == mtime {
      var t :| t in tags && t.length == length && t.mtime == mtime;
      var i :| 0 <= i < |tags| && tags[i] == t;
      assert Texts(tags)[i] == t.Text() && t.Text() in SplitOn(list, ',');
    }
    if exists part :: part in SplitOn(list, ',') && WeakEq(Trim(part), own) {
      var part :| part in SplitOn(list, ',') && WeakEq(Trim(part), own);
      var i :| 0 <= i < |tags| && Texts(tags)[i] == part;
      assert tags[i] in tags;
    }
  }

  lemma OwnTagIsStrong(length: nat, mtime: nat)
    ensures StripWeak(Etag(length, mtime)) == Etag(length, mtime)
  {
    EtagParts(length, mtime);
  }

  // ----- ranges tile the body -----

  function RangeText(start: nat, end: nat): bytes {
    "bytes=" + (Dec(start) + "-" + Dec(end))
  }

  lemma DecIsPlain(n: nat)
    ensures ',' !in Dec(n) && '-' !in Dec(n) && Trim(Dec(n)) == Dec(n) && Dec(n) != []
    ensures n <= U64_MAX ==> ParseU64(Dec(n)) == Some(n)
  {
    hide Print; hide Trim;
    var s := Dec(n);
    assert IsDigit(s[0]) && IsDigit(s[|s| - 1]);
    TrimSolid(s);
    ValueOfPrint(n, 10);
  }

  lemma RangeReads(start: nat, end: nat, length: nat)
    requires start <= end < length <= U64_MAX
    ensures ParseSingleRange(RangeText(start, end), length) == Some(Satisfiable(start, end))
  {
    hide Print; hide Trim; hide ParseU64;
    DecIsPlain(start);
    DecIsPlain(end);
    var a, b := Dec(start), Dec(end);
    var spec := a + "-" + b;
    assert IsDigit(a[0]) && IsDigit(b[|b| - 1]);
    assert RangeText(start, end)[6..] == spec;
    TrimSolid(spec);
    assert spec[..|a|] == a && spec[|a| + 1..] == b;
    IndexOfIs(spec, '-', |a|);
  }

  /** A request for one range of a file, unconditional. */
  ghost predicate AsksFor(request: Request, start: nat, end: nat) {
    && request.Field("if-none-match").None? && request.Field("if-modified-since").None?
    && request.Field("range") == Some(RangeText(start, end))
  }

  lemma RangeIsServed(request: Request, response: Response, start: nat, end: nat)
    requires response.status == 200 && start <= end < |response.body| <= U64_MAX && AsksFor(request, start, end)
    ensures var r := Evaluated(request, response);
            && r.status == 206 && r.body == response.body[start..end + 1]
            && r.Field("content-range") == Some("bytes " + Dec(start) + "-" + Dec(end) + "/" + Dec(|response.body|))
            && r.Field("content-type") == response.Field("content-type")
            && r.Field("etag") == response.Field("etag") && r.Field("last-modified") == response.Field("last-modified")
  {
    hide Print; hide WithCopied; hide ParseSingleRange; hide RangeText; hide Response.Field;
    PartialFields(response, start, end);
    RangeReads(start, end, |response.body|);
    var text := "bytes " + Dec(start) + "-" + Dec(end) + "/" + Dec(|response.body|);
    CopiedKeeps(Response(206, [], []).WithHeader("Accept-Ranges", "bytes").WithHeader("Content-Range", text),
                response, ["Content-Type", "ETag", "Last-Modified"]);
  }

  /** The last bytes of a body are what a suffix range asks for. */
  lemma SuffixReads(n: nat, length: nat)
    requires n <= U64_MAX
    ensures ParseSingleRange("bytes=" + ("-" + Dec(n)), length) ==
            if n == 0 || length == 0 then Some(Unsatisfiable)
            else Some(Satisfiable(if n <= length then length - n else 0, length - 1))
  {
    hide Print; hide ParseU64; hide Trim; hide IndexOf;
    DecIsPlain(n);
    var b := Dec(n);
    var spec := "-" + b;
    assert IsDigit(b[|b| - 1]);
    assert ("bytes=" + spec)[6..] == spec;
    TrimSolid(spec);
    assert spec[..0] == [] && spec[1..] == b;
    IndexOfIs(spec, '-', 0);
    TrimNothing();
  }

  lemma TrimNothing()
    ensures Trim([]) == []
  {
  }

  /** Increasing cut points from 0 to the length. */
  ghost predicate Cuts(cuts: seq<nat>, from: nat, length: nat) {
    |cuts| > 0 && cuts[0] == from && cuts[|cuts| - 1] == length
    && forall i :: 0 <= i < |cuts| - 1 ==> cuts[i] < cuts[i + 1]
  }

  function Bodies(responses: seq<Response>): bytes {
    if responses == [] then [] else responses[0].body + Bodies(responses[1..])
  }

  /** However a file is partitioned into consecutive ranges, the partial responses
      put together are the file. */
  lemma {:induction false} RangesTile(requests: seq<Request>, response: Response, cuts: seq<nat>, from: nat)
    requires response.status == 200 && |response.body| <= U64_MAX && from <= |response.body|
    requires Cuts(cuts, from, |response.body|) && |requests| == |cuts| - 1
    requires forall i :: 0 <= i < |requests| ==> cuts[i] < cuts[i + 1] && AsksFor(requests[i], cuts[i], cuts[i + 1] - 1)
    ensures var answers := seq(|requests|, i requires 0 <= i < |requests| => Evaluated(requests[i], response));
            && Bodies(answers) == response.body[from..]
            && forall a :: a in answers ==> a.status == 206
    decreases |requests|
  {
    hide Evaluated; hide AsksFor; hide Response.Field; hide Print;
    var answers := seq(|requests|, i requires 0 <= i < |requests| => Evaluated(requests[i], response));
    if requests == [] {
      assert response.body[from..] == [];
    } else {
      var next := cuts[1];
      CutsIncrease(cuts, from, |response.body|, 1);
      RangeIsServed(requests[0], response, from, next - 1);
      forall i | 0 <= i < |requests[1..]|
        ensures cuts[1..][i] < cuts[1..][i + 1] && AsksFor(requests[1..][i], cuts[1..][i], cuts[1..][i + 1] - 1)
      {
        assert requests[1..][i] == requests[i + 1];
      }
      RangesTile(requests[1..], response, cuts[1..], next);
      var rest := requests[1..];
      assert answers[1..] == seq(|rest|, i requires 0 <= i < |rest| => Evaluated(rest[i], response));
      assert response.body[from..] == response.body[from..next] + response.body[next..];
    }
  }

  lemma {:induction false} CutsIncrease(cuts: seq<nat>, from: nat, length: nat, k: nat)
    requires Cuts(cuts, from, length) && k < |cuts|
    ensures cuts[k] <= length
    decreases |cuts| - k
  {
    if k + 1 < |cuts| {
      CutsIncrease(cuts, from, length, k + 1);
    }
  }
}
