/** From a request path to the asset that answers it: decoding, sanitizing and
    candidate paths. */
module StaticPaths {
  import opened Bytes
  import opened Numerals
  import Utf8
  import Responses
  import Conditional

  // ----- percent-decoding -----

  function EscapedByte(hi: byte, lo: byte): byte
    requires IsHexDigit(hi) && IsHexDigit(lo)
  {
    (HexDigitValue(hi) * 16 + HexDigitValue(lo)) as char
  }

  predicate EscapeStands(s: bytes, i: nat) {
    i + 2 < |s| && IsHexDigit(s[i + 1]) && IsHexDigit(s[i + 2])
  }

  /** The bytes that the rest of a path stands for. */
  function BytesFrom(s: bytes, i: nat): Option<bytes>
    requires i <= |s|
    decreases |s| - i
  {
    if i == |s| then Some([])
    else if s[i] == '%' then
      if !EscapeStands(s, i) then None
      else match BytesFrom(s, i + 3)
           case None => None
           case Some(rest) => Some([EscapedByte(s[i + 1], s[i + 2])] + rest)
    else match BytesFrom(s, i + 1)
         case None => None
         case Some(rest) => Some([s[i]] + rest)
  }

  function PercentDecoded(s: bytes): Option<bytes> {
    match BytesFrom(s, 0)
    case None => None
    case Some(out) => if Utf8.ValidUtf8(out) then Some(out) else None
  }

  function Continued(done: bytes, rest: Option<bytes>): Option<bytes> {
    match rest case None => None case Some(more) => Some(done + more)
  }

  method PercentDecode(input: bytes) returns (r: Option<bytes>)
    ensures r == PercentDecoded(input)
  {
    hide Utf8.ValidUtf8; hide IsHexDigit; hide EscapedByte;
    var out := [];
    var i := 0;
    assert BytesFrom(input, 0) == Continued([], BytesFrom(input, 0)) by { ContinuedFromStart(BytesFrom(input, 0)); }
    while i < |input|
      invariant i <= |input| && BytesFrom(input, 0) == Continued(out, BytesFrom(input, i))
      decreases |input| - i
    {
      if input[i] == '%' {
        if i + 2 >= |input| {
          return None;
        }
        if !IsHexDigit(input[i + 1]) || !IsHexDigit(input[i + 2]) {
          return None;
        }
        var b := EscapedByte(input[i + 1], input[i + 2]);
        ContinuedStep(out, b, BytesFrom(input, i + 3));
        out := out + [b];
        i := i + 3;
      } else {
        ContinuedStep(out, input[i], BytesFrom(input, i + 1));
        out := out + [input[i]];
        i := i + 1;
      }
    }
    assert out + [] == out;
    return if Utf8.ValidUtf8(out) then Some(out) else None;
  }

  lemma ContinuedFromStart(rest: Option<bytes>)
    ensures Continued([], rest) == rest
  {
    if rest.Some? {
      assert [] + rest.value == rest.value;
    }
  }

  lemma ContinuedStep(done: bytes, b: byte, rest: Option<bytes>)
    ensures Continued(done + [b], rest) ==
            Continued(done, match rest case None => None case Some(more) => Some([b] + more))
  {
    if rest.Some? {
      assert done + [b] + rest.value == done + ([b] + rest.value);
    }
  }

  /** A piece of a path that stands for a byte: the byte itself, or its escape in
      either case. */
  predicate Spells(piece: bytes, b: byte) {
    || (piece == [b] && b != '%')
    || (|piece| == 3 && piece[0] == '%' && IsHexDigit(piece[1]) && IsHexDigit(piece[2])
      && b as int == Value(piece[1..], 16))
  }

  lemma EscapedIs(hi: byte, lo: byte)
    requires IsHexDigit(hi) && IsHexDigit(lo)
    ensures EscapedByte(hi, lo) as int == Value([hi, lo], 16)
  {
    hide IsHexDigit; hide HexDigitValue;
    assert [hi, lo][..1] == [hi] && [hi][..0] == [];
    assert Value([hi], 16) == HexDigitValue(hi);
  }

  /** What stands for a byte, by its digits. */
  lemma SpelledByte(piece: bytes, b: byte)
    ensures Spells(piece, b) <==>
            || (piece == [b] && b != '%')
            || (|piece| == 3 && piece[0] == '%' && IsHexDigit(piece[1]) && IsHexDigit(piece[2])
                && b == EscapedByte(piece[1], piece[2]))
  {
    hide EscapedByte; hide IsHexDigit; hide Value;
    if |piece| == 3 && IsHexDigit(piece[1]) && IsHexDigit(piece[2]) {
      assert piece[1..] == [piece[1], piece[2]];
      EscapedIs(piece[1], piece[2]);
    }
  }

  function Flat(pieces: seq<bytes>): bytes {
    if pieces == [] then [] else pieces[0] + Flat(pieces[1..])
  }

  ghost predicate IsSpelling(pieces: seq<bytes>, out: bytes) {
    |pieces| == |out| && forall k :: 0 <= k < |out| ==> Spells(pieces[k], out[k])
  }

  lemma {:induction false} SpellingDecodes(s: bytes, i: nat, pieces: seq<bytes>, out: bytes)
    requires IsSpelling(pieces, out) && MatchAt(s, Flat(pieces), i) && i + |Flat(pieces)| == |s|
    ensures BytesFrom(s, i) == Some(out)
    decreases |out|
  {
    hide IsHexDigit; hide EscapedByte; hide Value;
    if out != [] {
      var piece := pieces[0];
      MatchConcat(s, piece, Flat(pieces[1..]), i);
      assert Spells(piece, out[0]);
      SpelledByte(piece, out[0]);
      assert s[i..i + |piece|] == piece && s[i] == piece[0];
      if |piece| == 3 {
        assert s[i + 1] == piece[1] && s[i + 2] == piece[2];
      }
      SpellingDecodes(s, i + |piece|, pieces[1..], out[1..]);
      assert out == [out[0]] + out[1..];
    }
  }

  lemma {:induction false} DecodedIsSpelled(s: bytes, i: nat) returns (pieces: seq<bytes>)
    requires i <= |s| && BytesFrom(s, i).Some?
    ensures IsSpelling(pieces, BytesFrom(s, i).value) && Flat(pieces) == s[i..]
    decreases |s| - i
  {
    hide IsHexDigit; hide EscapedByte; hide Value; hide Spells;
    if i == |s| {
      pieces := [];
    } else {
      var n := if s[i] == '%' then 3 else 1;
      var rest := DecodedIsSpelled(s, i + n);
      var piece := s[i..i + n];
      pieces := [piece] + rest;
      assert pieces[1..] == rest;
      assert s[i..] == piece + s[i + n..];
      assert piece[0] == s[i];
      if n == 3 {
        assert piece[1] == s[i + 1] && piece[2] == s[i + 2];
      }
      SpelledByte(piece, BytesFrom(s, i).value[0]);
    }
  }

  /** A path decodes to a text exactly when the text is UTF-8 and the path spells
      it byte by byte, each byte plain or escaped. */
  lemma DecodesExactlySpellings(s: bytes, out: bytes)
    ensures PercentDecoded(s) == Some(out) <==>
            Utf8.ValidUtf8(out) && exists pieces :: IsSpelling(pieces, out) && Flat(pieces) == s
  {
    hide BytesFrom; hide Utf8.ValidUtf8; hide IsSpelling; hide Flat;
    if exists pieces :: IsSpelling(pieces, out) && Flat(pieces) == s {
      var pieces :| IsSpelling(pieces, out) && Flat(pieces) == s;
      assert s[0..] == s;
      SpellingDecodes(s, 0, pieces, out);
    }
    if PercentDecoded(s) == Some(out) {
      var pieces := DecodedIsSpelled(s, 0);
      assert s[0..] == s;
    }
  }

  // ----- safe segments -----

  predicate IsRefused(segment: bytes) {
    segment == ".." || exists i :: 0 <= i < |segment| && (segment[i] as int < 0x20 || segment[i] == '\\')
  }

  predicate IsSkipped(segment: bytes) {
    segment == [] || segment == "."
  }

  predicate IsSafe(segment: bytes) {
    !IsSkipped(segment) && !IsRefused(segment) && '/' !in segment
  }

  function SafeOf(parts: seq<bytes>): Option<seq<bytes>> {
    if parts == [] then Some([])
    else if IsSkipped(parts[0]) then SafeOf(parts[1..])
    else if IsRefused(parts[0]) then None
    else match SafeOf(parts[1..])
         case None => None
         case Some(rest) => Some([parts[0]] + rest)
  }

  function Sanitized(decoded: bytes): Option<seq<bytes>> {
    SafeOf(SplitOn(decoded, '/'))
  }

  function Collected(done: seq<bytes>, rest: Option<seq<bytes>>): Option<seq<bytes>> {
    match rest case None => None case Some(more) => Some(done + more)
  }

  method Sanitize(decoded: bytes) returns (r: Option<seq<bytes>>)
    ensures r == Sanitized(decoded)
  {
    hide IsRefused; hide SplitOn;
    var parts := SplitOn(decoded, '/');
    var segments := [];
    CollectedFromStart(SafeOf(parts));
    for k := 0 to |parts|
      invariant Sanitized(decoded) == Collected(segments, SafeOf(parts[k..]))
    {
      var segment := parts[k];
      assert parts[k..][0] == segment && parts[k..][1..] == parts[k + 1..];
      if !IsSkipped(segment) {
        if IsRefused(segment) {
          return None;
        }
        CollectedStep(segments, segment, SafeOf(parts[k + 1..]));
        segments := segments + [segment];
      }
    }
    assert segments + [] == segments;
    return Some(segments);
  }

  lemma CollectedFromStart(rest: Option<seq<bytes>>)
    ensures Collected([], rest) == rest
  {
    if rest.Some? {
      assert [] + rest.value == rest.value;
    }
  }

  lemma CollectedStep(done: seq<bytes>, segment: bytes, rest: Option<seq<bytes>>)
    ensures Collected(done + [segment], rest) ==
            Collected(done, match rest case None => None case Some(more) => Some([segment] + more))
  {
    if rest.Some? {
      assert done + [segment] + rest.value == done + ([segment] + rest.value);
    }
  }

  lemma {:induction false} PartsHaveNoSlash(s: bytes)
    ensures forall part :: part in SplitOn(s, '/') ==> '/' !in part
    decreases |s|
  {
    match IndexOf(s, '/')
    case None =>
    case Some(i) => PartsHaveNoSlash(s[i + 1..]);
  }

  lemma {:induction false} SafeOfParts(parts: seq<bytes>)
    requires forall part :: part in parts ==> '/' !in part
    ensures SafeOf(parts).None? <==> exists part :: part in parts && IsRefused(part)
    ensures SafeOf(parts).Some? ==> forall segment :: segment in SafeOf(parts).value ==>
            IsSafe(segment) && segment in parts
  {
    hide IsRefused;
    if parts != [] {
      SafeOfParts(parts[1..]);
      if IsSkipped(parts[0]) {
        SkippedIsNotRefused(parts[0]);
      }
      assert forall part :: part in parts <==> part == parts[0] || part in parts[1..];
    }
  }

  lemma SkippedIsNotRefused(segment: bytes)
    requires IsSkipped(segment)
    ensures !IsRefused(segment)
  {
  }

  /** `..`, or a control byte or a backslash somewhere. */
  predicate Climbs(part: bytes) {
    part == ".." || exists c :: c in part && (c as int < 0x20 || c == '\\')
  }

  lemma RefusedIs(part: bytes)
    ensures IsRefused(part) <==> Climbs(part)
  {
    if exists i :: 0 <= i < |part| && (part[i] as int < 0x20 || part[i] == '\\') {
      var i :| 0 <= i < |part| && (part[i] as int < 0x20 || part[i] == '\\');
      assert part[i] in part;
    }
  }

  /** The parts that name something, in order. */
  function Naming(parts: seq<bytes>): seq<bytes> {
    if parts == [] then []
    else (if parts[0] == "" || parts[0] == "." then [] else [parts[0]]) + Naming(parts[1..])
  }

  lemma {:induction false} SafeIsNaming(parts: seq<bytes>)
    ensures SafeOf(parts).Some? ==> SafeOf(parts).value == Naming(parts)
  {
    hide IsRefused;
    if parts != [] {
      SafeIsNaming(parts[1..]);
    }
  }

  /** A decoded path is refused exactly when one of its segments is `..` or holds a
      control byte or a backslash; otherwise what is left are its segments but for the
      empty ones and `.`, in order. */
  lemma SanitizedIsSafe(decoded: bytes)
    ensures Sanitized(decoded).None? <==> exists part :: part in SplitOn(decoded, '/') && Climbs(part)
    ensures Sanitized(decoded).Some? ==>
              && Sanitized(decoded).value == Naming(SplitOn(decoded, '/'))
              && forall segment :: segment in Sanitized(decoded).value ==>
                   IsSafe(segment) && segment != "" && segment != "." && !Climbs(segment) && '/' !in segment
  {
    hide SplitOn; hide IsRefused; hide SafeOf; hide Climbs;
    PartsHaveNoSlash(decoded);
    SafeOfParts(SplitOn(decoded, '/'));
    SafeIsNaming(SplitOn(decoded, '/'));
    forall part: bytes ensures IsRefused(part) <==> Climbs(part) {
      RefusedIs(part);
    }
  }

  // ----- joining -----

  function Join(segments: seq<bytes>): bytes {
    if segments == [] then []
    else if |segments| == 1 then segments[0]
    else segments[0] + "/" + Join(segments[1..])
  }

  /** Joined segments split into themselves, with a last text's parts behind them. */
  lemma {:induction false} JoinedSplits(segments: seq<bytes>, last: bytes)
    requires forall segment :: segment in segments ==> '/' !in segment
    ensures segments != [] ==> SplitOn(Join(segments), '/') == segments
    ensures segments != [] ==> SplitOn(Join(segments) + "/" + last, '/') == segments + SplitOn(last, '/')
  {
    hide SplitOn;
    if segments != [] {
      var first, rest := segments[0], segments[1..];
      if rest == [] {
        SplitOnFirst(first, '/', last);
        assert segments == [first];
      } else {
        JoinedSplits(rest, last);
        SplitOnFirst(first, '/', Join(rest));
        SplitOnFirst(first, '/', Join(rest) + "/" + last);
        assert Join(segments) + "/" + last == first + "/" + (Join(rest) + "/" + last);
        assert [first] + (rest + SplitOn(last, '/')) == segments + SplitOn(last, '/');
      }
    }
  }

  lemma {:induction false} SafeStays(segments: seq<bytes>)
    requires forall segment :: segment in segments ==> IsSafe(segment)
    ensures SafeOf(segments) == Some(segments)
  {
    hide IsRefused;
    if segments != [] {
      assert IsSafe(segments[0]);
      SafeStays(segments[1..]);
      assert segments == [segments[0]] + segments[1..];
    }
  }

  /** Sanitizing what was sanitized changes nothing. */
  lemma SanitizingIsIdempotent(decoded: bytes)
    requires Sanitized(decoded).Some? && Sanitized(decoded).value != []
    ensures Sanitized(Join(Sanitized(decoded).value)) == Sanitized(decoded)
  {
    hide SplitOn; hide IsRefused; hide SafeOf;
    var segments := Sanitized(decoded).value;
    SanitizedIsSafe(decoded);
    JoinedSplits(segments, []);
    SafeStays(segments);
  }

  // ----- candidates -----

  function IndexPath(base: bytes, index: bytes): bytes {
    if base == [] then index else base + "/" + index
  }

  predicate EndsWithSlash(s: bytes) {
    s != [] && s[|s| - 1] == '/'
  }

  function CandidatePaths(path: bytes, indexFiles: seq<bytes>): Option<seq<bytes>> {
    match PercentDecoded(path)
    case None => None
    case Some(decoded) =>
      match Sanitized(decoded)
      case None => None
      case Some(segments) =>
        if segments == [] || EndsWithSlash(decoded) then
          Some(seq(|indexFiles|, i requires 0 <= i < |indexFiles| => IndexPath(Join(segments), indexFiles[i])))
        else Some([Join(segments)])
  }

  lemma JoinIsEmpty(segments: seq<bytes>)
    requires forall segment :: segment in segments ==> segment != []
    ensures Join(segments) == [] <==> segments == []
  {
    if segments != [] {
      assert segments[0] in segments;
    }
  }

  /** A path for a directory, the root or one that ends in a slash, has a candidate for
      each index file, of the path's segments and then those of the index file; any other
      path has one, of its segments. */
  lemma CandidateParts(path: bytes, indexFiles: seq<bytes>)
    requires CandidatePaths(path, indexFiles).Some?
    ensures PercentDecoded(path).Some? && Sanitized(PercentDecoded(path).value).Some?
    ensures var candidates := CandidatePaths(path, indexFiles).value;
            var decoded := PercentDecoded(path).value;
            var segments := Sanitized(decoded).value;
            && (forall segment :: segment in segments ==> IsSafe(segment))
            && if segments == [] || (decoded != [] && decoded[|decoded| - 1] == '/')
               then |candidates| == |indexFiles|
                    && forall k :: 0 <= k < |indexFiles| ==>
                         SplitOn(candidates[k], '/') == segments + SplitOn(indexFiles[k], '/')
               else |candidates| == 1 && SplitOn(candidates[0], '/') == segments
  {
    hide SplitOn; hide IsRefused; hide SafeOf; hide PercentDecoded; hide Join; hide Sanitized; hide Climbs;
    var decoded := PercentDecoded(path).value;
    var segments := Sanitized(decoded).value;
    SanitizedIsSafe(decoded);
    JoinIsEmpty(segments);
    JoinedSplits(segments, []);
    forall k | 0 <= k < |indexFiles|
      ensures SplitOn(IndexPath(Join(segments), indexFiles[k]), '/') == segments + SplitOn(indexFiles[k], '/')
    {
      JoinedSplits(segments, indexFiles[k]);
      assert [] + SplitOn(indexFiles[k], '/') == SplitOn(indexFiles[k], '/');
    }
  }

  /** There is no candidate at all if and only if the path does not decode, or holds a
      segment that climbs. */
  lemma NoCandidates(path: bytes, indexFiles: seq<bytes>)
    ensures CandidatePaths(path, indexFiles).None? <==>
            || PercentDecoded(path).None?
            || exists part :: part in SplitOn(PercentDecoded(path).value, '/') && Climbs(part)
  {
    hide SplitOn; hide PercentDecoded; hide Sanitized; hide Climbs;
    if PercentDecoded(path).Some? {
      SanitizedIsSafe(PercentDecoded(path).value);
    }
  }

  /** With index files of safe segments, every segment of every candidate is safe:
      no candidate climbs out of the root or starts from another one. */
  lemma CandidatesStayInside(path: bytes, indexFiles: seq<bytes>)
    requires CandidatePaths(path, indexFiles).Some?
    requires forall k :: 0 <= k < |indexFiles| ==> forall part :: part in SplitOn(indexFiles[k], '/') ==> IsSafe(part)
    ensures forall k :: 0 <= k < |CandidatePaths(path, indexFiles).value| ==>
              forall part :: part in SplitOn(CandidatePaths(path, indexFiles).value[k], '/') ==> IsSafe(part)
  {
    hide SplitOn; hide IsSafe; hide CandidatePaths; hide Sanitized; hide PercentDecoded;
    CandidateParts(path, indexFiles);
  }

  // ----- serving -----

  datatype Asset = Asset(content: bytes, mtime: Option<nat>)

  /** The asset source, seen as a function of the path. */
  type AssetSource = bytes -> Option<Asset>

  /** The first candidate that has an asset answers; otherwise nothing does. */
  method ServeStatic(path: bytes, indexFiles: seq<bytes>, load: AssetSource, typeOf: bytes -> bytes)
    returns (r: Option<Responses.Response>)
    ensures r.Some? <==> CandidatePaths(path, indexFiles).Some?
                         && exists c :: c in CandidatePaths(path, indexFiles).value && load(c).Some?
    ensures r.Some? ==> exists k: nat :: AnswersFirst(CandidatePaths(path, indexFiles).value, k, load, typeOf, r.value)
  {
    hide CandidatePaths; hide Conditional.FileResponse;
    var candidates := CandidatePaths(path, indexFiles);
    if candidates.None? {
      return None;
    }
    for k := 0 to |candidates.value|
      invariant forall j :: 0 <= j < k ==> load(candidates.value[j]).None?
    {
      var asset := load(candidates.value[k]);
      if asset.Some? {
        r := Some(Conditional.FileResponse(typeOf(candidates.value[k]), asset.value.content, asset.value.mtime));
        assert candidates.value[k] in candidates.value;
        assert AnswersFirst(candidates.value, k, load, typeOf, r.value);
        return;
      }
    }
    return None;
  }

  ghost predicate AnswersFirst(
    candidates: seq<bytes>, k: nat, load: AssetSource, typeOf: bytes -> bytes, r: Responses.Response)
  {
    && k < |candidates| && load(candidates[k]).Some?
    && (forall j :: 0 <= j < k ==> load(candidates[j]).None?)
    && r == Conditional.FileResponse(
              typeOf(candidates[k]), load(candidates[k]).value.content, load(candidates[k]).value.mtime)
  }

  method StaticExists(path: bytes, indexFiles: seq<bytes>, present: bytes -> bool) returns (found: bool)
    ensures found <==> CandidatePaths(path, indexFiles).Some?
                       && exists c :: c in CandidatePaths(path, indexFiles).value && present(c)
  {
    hide CandidatePaths;
    var candidates := CandidatePaths(path, indexFiles);
    if candidates.None? {
      return false;
    }
    for k := 0 to |candidates.value|
      invariant forall j :: 0 <= j < k ==> !present(candidates.value[j])
    {
      if present(candidates.value[k]) {
        assert candidates.value[k] in candidates.value;
        return true;
      }
    }
    return false;
  }
}
