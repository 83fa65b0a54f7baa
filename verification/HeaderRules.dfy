/** What the framing, host and connection fields of a request decide, field by field. */
module HeaderRules {
  import opened Bytes
  import opened Ascii
  import opened Numerals
  import opened Utf8
  import opened UnicodeSpaces
  import opened Http
  import opened RequestParser

  // ----- fields by position -----

  predicate Absent(headers: seq<Header>, name: bytes) {
    forall i :: 0 <= i < |headers| ==> !EqIgnoreCase(headers[i].name, name)
  }

  /** The field at `k` is the only one with the name. */
  predicate OnlyAt(headers: seq<Header>, name: bytes, k: nat)
    requires k < |headers|
  {
    forall i :: 0 <= i < |headers| ==> (EqIgnoreCase(headers[i].name, name) <==> i == k)
  }

  predicate FirstAt(headers: seq<Header>, name: bytes, k: nat)
    requires k < |headers|
  {
    && EqIgnoreCase(headers[k].name, name)
    && forall i :: 0 <= i < k ==> !EqIgnoreCase(headers[i].name, name)
  }

  lemma {:induction false} NamedIsAbsent(headers: seq<Header>, name: bytes)
    ensures Named(headers, name) == [] <==> Absent(headers, name)
  {
    hide EqIgnoreCase;
    if headers != [] {
      NamedIsAbsent(headers[1..], name);
      assert headers == [headers[0]] + headers[1..];
      if Absent(headers[1..], name) && !EqIgnoreCase(headers[0].name, name) {
        assert forall i :: 0 < i < |headers| ==> headers[i] == headers[1..][i - 1];
      }
      if Absent(headers, name) {
        assert forall i :: 0 <= i < |headers[1..]| ==> headers[1..][i] == headers[i + 1];
      }
    }
  }

  lemma {:induction false} OnlyIsNamed(headers: seq<Header>, name: bytes, k: nat)
    requires k < |headers| && OnlyAt(headers, name, k)
    ensures Named(headers, name) == [headers[k]]
    decreases k
  {
    hide EqIgnoreCase;
    var rest := headers[1..];
    assert forall i :: 0 <= i < |rest| ==> rest[i] == headers[i + 1];
    if k == 0 {
      NamedIsAbsent(rest, name);
    } else {
      assert OnlyAt(rest, name, k - 1);
      OnlyIsNamed(rest, name, k - 1);
    }
  }

  lemma {:induction false} NamedIsFirst(headers: seq<Header>, name: bytes) returns (k: nat)
    requires Named(headers, name) != []
    ensures k < |headers| && FirstAt(headers, name, k) && Named(headers, name)[0] == headers[k]
    ensures |Named(headers, name)| == 1 ==> OnlyAt(headers, name, k)
  {
    hide EqIgnoreCase;
    var rest := headers[1..];
    assert forall i :: 0 <= i < |rest| ==> rest[i] == headers[i + 1];
    if EqIgnoreCase(headers[0].name, name) {
      k := 0;
      NamedIsAbsent(rest, name);
      assert forall i :: 0 < i < |headers| ==> headers[i] == rest[i - 1];
    } else {
      var j := NamedIsFirst(rest, name);
      k := j + 1;
      assert forall i :: 0 < i < |headers| ==> headers[i] == rest[i - 1];
    }
  }

  // ----- the length that a value spells -----

  /** A decimal numeral with leading zeros, between whitespace. */
  function LengthText(before: seq<Space>, zeros: nat, n: nat, after: seq<Space>): bytes {
    Around(before, Zeros(zeros) + Dec(n), after)
  }

  ghost predicate SpellsLength(value: bytes, n: nat) {
    exists before: seq<Space>, zeros: nat, after: seq<Space> :: value == LengthText(before, zeros, n, after)
  }

  lemma SpelledIsTrimmed(value: bytes, n: nat)
    requires SpellsLength(value, n)
    ensures var raw := Trim(value); raw != [] && AllDigits(raw) && Value(raw, 10) == n
  {
    hide Print; hide Value; hide SpacesOf; hide Trim;
    var before: seq<Space>, zeros: nat, after: seq<Space> :| value == LengthText(before, zeros, n, after);
    var core := Zeros(zeros) + Dec(n);
    NumeralValue(zeros, n);
    assert IsDigit(core[0]) && IsDigit(core[|core| - 1]);
    TrimSpaced(before, core, after);
  }

  lemma TrimmedIsSpelled(value: bytes)
    requires var raw := Trim(value); raw != [] && AllDigits(raw)
    ensures SpellsLength(value, Value(Trim(value), 10))
  {
    hide Print; hide Value; hide SpacesOf; hide Trim;
    var before, after := UnicodeSpaces.TrimSplits(value);
    var zeros := DigitsSpell(Trim(value));
    assert value == LengthText(before, zeros, Value(Trim(value), 10), after);
  }

  // ----- the coding that a value names -----

  ghost predicate SpellsChunked(value: bytes) {
    exists before: seq<Space>, word: bytes, after: seq<Space> ::
      value == Around(before, word, after) && EqIgnoreCase(word, "chunked")
  }

  lemma ChunkedIsTrimmed(value: bytes)
    ensures EqIgnoreCase(Trim(value), "chunked") <==> SpellsChunked(value)
  {
    hide SpacesOf; hide Trim;
    if EqIgnoreCase(Trim(value), "chunked") {
      var before, after := UnicodeSpaces.TrimSplits(value);
      assert value == Around(before, Trim(value), after);
    }
    if SpellsChunked(value) {
      var before: seq<Space>, word: bytes, after: seq<Space> :|
        value == Around(before, word, after) && EqIgnoreCase(word, "chunked");
      WordIsSolid(word);
      TrimSpaced(before, word, after);
    }
  }

  lemma WordIsSolid(word: bytes)
    requires EqIgnoreCase(word, "chunked")
    ensures |word| == 7 && IsSolid(word[0]) && IsSolid(word[6])
  {
    assert ToLower(word[0]) == 'c' && ToLower(word[6]) == 'd';
  }

  // ----- framing -----

  ghost predicate LengthIs(headers: seq<Header>, n: nat) {
    exists k: nat :: k < |headers| && OnlyAt(headers, "content-length", k) && SpellsLength(headers[k].value, n)
  }

  ghost predicate NamesChunked(headers: seq<Header>) {
    exists k: nat :: k < |headers| && OnlyAt(headers, "transfer-encoding", k) && SpellsChunked(headers[k].value)
  }

  lemma LengthDecides(headers: seq<Header>)
    requires Absent(headers, "transfer-encoding") && !Absent(headers, "content-length")
    ensures forall n: nat :: LengthIs(headers, n) ==>
              BodyFraming(headers) == if n <= U64_MAX then Ok(Fixed(n)) else Err(BadContentLength)
    ensures (forall n: nat :: !LengthIs(headers, n)) ==> BodyFraming(headers) == Err(BadContentLength)
  {
    hide EqIgnoreCase; hide Trim; hide Value; hide Named; hide SpellsLength; hide Absent; hide OnlyAt; hide FirstAt;
    NamedIsAbsent(headers, "transfer-encoding");
    NamedIsAbsent(headers, "content-length");
    forall n: nat | LengthIs(headers, n)
      ensures BodyFraming(headers) == if n <= U64_MAX then Ok(Fixed(n)) else Err(BadContentLength)
    {
      var k: nat :| k < |headers| && OnlyAt(headers, "content-length", k) && SpellsLength(headers[k].value, n);
      OnlyIsNamed(headers, "content-length", k);
      SpelledIsTrimmed(headers[k].value, n);
      ParseDigits(Trim(headers[k].value));
    }
    if BodyFraming(headers) != Err(BadContentLength) {
      var k := NamedIsFirst(headers, "content-length");
      TrimmedIsSpelled(headers[k].value);
      assert LengthIs(headers, Value(Trim(headers[k].value), 10));
    }
  }

  lemma ParseDigits(raw: bytes)
    requires raw != [] && AllDigits(raw)
    ensures ParseU64(raw) == if Value(raw, 10) <= U64_MAX then Some(Value(raw, 10)) else None
  {
    hide Value;
    assert IsDigit(raw[0]);
  }

  lemma CodingDecides(headers: seq<Header>)
    requires !Absent(headers, "transfer-encoding") && Absent(headers, "content-length")
    ensures BodyFraming(headers) ==
            if NamesChunked(headers) then Ok(ChunkedBody) else Err(UnsupportedTransferEncoding)
  {
    hide EqIgnoreCase; hide Trim; hide Named; hide SpellsChunked; hide Absent; hide OnlyAt; hide FirstAt;
    NamedIsAbsent(headers, "transfer-encoding");
    NamedIsAbsent(headers, "content-length");
    if NamesChunked(headers) {
      var k: nat :| k < |headers| && OnlyAt(headers, "transfer-encoding", k) && SpellsChunked(headers[k].value);
      OnlyIsNamed(headers, "transfer-encoding", k);
      ChunkedIsTrimmed(headers[k].value);
    }
    if BodyFraming(headers) == Ok(ChunkedBody) {
      var k := NamedIsFirst(headers, "transfer-encoding");
      ChunkedIsTrimmed(headers[k].value);
    }
  }

  /** How a body is framed, in full: each clause is one case, and there are no others. */
  lemma FramingIs(headers: seq<Header>)
    ensures !Absent(headers, "transfer-encoding") && !Absent(headers, "content-length") ==>
              BodyFraming(headers) == Err(ConflictingFraming)
    ensures !Absent(headers, "transfer-encoding") && Absent(headers, "content-length") ==>
              BodyFraming(headers) ==
              if NamesChunked(headers) then Ok(ChunkedBody) else Err(UnsupportedTransferEncoding)
    ensures Absent(headers, "transfer-encoding") && Absent(headers, "content-length") ==>
              BodyFraming(headers) == Ok(Fixed(0))
    ensures forall n: nat :: Absent(headers, "transfer-encoding") && LengthIs(headers, n) ==>
              BodyFraming(headers) == if n <= U64_MAX then Ok(Fixed(n)) else Err(BadContentLength)
    ensures Absent(headers, "transfer-encoding") && !Absent(headers, "content-length") ==>
              (forall n: nat :: !LengthIs(headers, n)) ==> BodyFraming(headers) == Err(BadContentLength)
  {
    hide EqIgnoreCase; hide Trim; hide Named; hide LengthIs; hide NamesChunked; hide Absent; hide ParseU64;
    NamedIsAbsent(headers, "transfer-encoding");
    NamedIsAbsent(headers, "content-length");
    if Absent(headers, "transfer-encoding") {
      if Absent(headers, "content-length") {
        forall n: nat ensures !LengthIs(headers, n) {
          NoFieldNoLength(headers, n);
        }
      } else {
        LengthDecides(headers);
      }
    } else if Absent(headers, "content-length") {
      CodingDecides(headers);
    }
  }

  lemma NoFieldNoLength(headers: seq<Header>, n: nat)
    requires Absent(headers, "content-length")
    ensures !LengthIs(headers, n)
  {
    hide EqIgnoreCase; hide SpellsLength;
  }

  // ----- values that spell no length -----

  lemma {:induction false} SpacesAreNotSolid(scalars: seq<Space>)
    ensures forall i :: 0 <= i < |SpacesOf(scalars)| ==> !IsSolid(SpacesOf(scalars)[i])
  {
    hide IsSolid; hide Json.EncodeScalar;
    if scalars != [] {
      SpaceIsNotSolid(scalars[0]);
      SpacesAreNotSolid(scalars[1..]);
      var c, rest := Json.EncodeScalar(scalars[0]), SpacesOf(scalars[1..]);
      forall i | 0 <= i < |c + rest| ensures !IsSolid((c + rest)[i]) {
        if i >= |c| {
          assert (c + rest)[i] == rest[i - |c|];
        }
      }
    }
  }

  lemma SpaceIsNotSolid(c: Space)
    ensures forall i :: 0 <= i < |Json.EncodeScalar(c)| ==> !IsSolid(Json.EncodeScalar(c)[i])
  {
    assert IsSpaceScalar(c);
  }

  /** Two fields, a value with a visible byte that is no digit, and a blank value spell
      no length. */
  lemma BadLengths(headers: seq<Header>, i: nat, j: nat)
    requires i < |headers| && j < |headers| && EqIgnoreCase(headers[i].name, "content-length")
    requires Absent(headers, "transfer-encoding")
    requires
      || (i != j && EqIgnoreCase(headers[j].name, "content-length"))
      || (exists c :: c in headers[i].value && IsSolid(c) && !IsDigit(c))
      || (exists spaces: seq<Space> :: headers[i].value == SpacesOf(spaces))
    ensures BodyFraming(headers) == Err(BadContentLength)
  {
    hide EqIgnoreCase; hide BodyFraming; hide LengthText; hide SpacesOf; hide IsSolid; hide IsDigit;
    FramingIs(headers);
    forall n: nat ensures !LengthIs(headers, n) {
      if LengthIs(headers, n) {
        var k: nat :| k < |headers| && OnlyAt(headers, "content-length", k) && SpellsLength(headers[k].value, n);
        assert k == i;
        LengthHasDigits(headers[i].value, n);
        if exists spaces: seq<Space> :: headers[i].value == SpacesOf(spaces) {
          var spaces: seq<Space> :| headers[i].value == SpacesOf(spaces);
          SpacesAreNotSolid(spaces);
        }
      }
    }
  }

  lemma LengthHasDigits(value: bytes, n: nat)
    requires SpellsLength(value, n)
    ensures forall c :: c in value && IsSolid(c) ==> IsDigit(c)
    ensures exists i :: 0 <= i < |value| && IsSolid(value[i])
  {
    hide Print; hide SpacesOf;
    var before: seq<Space>, zeros: nat, after: seq<Space> :| value == LengthText(before, zeros, n, after);
    SpacesAreNotSolid(before);
    SpacesAreNotSolid(after);
    var core := Zeros(zeros) + Dec(n);
    assert AllDigits(core);
    assert value[|SpacesOf(before)|] == core[0] && IsDigit(core[0]);
    forall c | c in value && IsSolid(c) ensures IsDigit(c) {
      var i :| 0 <= i < |value| && value[i] == c;
      PartOf(SpacesOf(before), core, SpacesOf(after), i);
    }
  }

  lemma PartOf(a: bytes, b: bytes, c: bytes, i: nat)
    requires i < |a + b + c|
    ensures var d := (a + b + c)[i];
            || (i < |a| && d == a[i])
            || (|a| <= i < |a| + |b| && d == b[i - |a|])
            || (|a| + |b| <= i && d == c[i - |a| - |b|])
  {
  }

  // ----- host -----

  /** Printable or beyond ASCII, and at least one byte. */
  predicate HostValue(value: bytes) {
    value != [] && forall c :: c in value ==> c as int >= 0x21 && c as int != 0x7F
  }

  ghost predicate HostIsNamed(headers: seq<Header>, version: Version) {
    || (version == Http10 && Absent(headers, "host"))
    || exists k: nat :: k < |headers| && OnlyAt(headers, "host", k) && HostValue(headers[k].value)
  }

  lemma HostIs(headers: seq<Header>, version: Version)
    ensures ValidateHost(headers, version) == if HostIsNamed(headers, version) then Ok(()) else Err(BadHost)
  {
    hide EqIgnoreCase; hide Named; hide Absent; hide OnlyAt; hide FirstAt; hide HostValue; hide IsValidHostValue;
    NamedIsAbsent(headers, "host");
    if exists k: nat :: k < |headers| && OnlyAt(headers, "host", k) && HostValue(headers[k].value) {
      var k: nat :| k < |headers| && OnlyAt(headers, "host", k) && HostValue(headers[k].value);
      OnlyIsNamed(headers, "host", k);
      HostValueIs(headers[k].value);
    }
    if ValidateHost(headers, version).Ok? && Named(headers, "host") != [] {
      var k := NamedIsFirst(headers, "host");
      HostValueIs(headers[k].value);
    }
  }

  lemma HostValueIs(value: bytes)
    ensures IsValidHostValue(value) <==> HostValue(value)
  {
    if HostValue(value) {
      forall i | 0 <= i < |value| ensures value[i] > ' ' && value[i] as int != 0x7f {
        var c := value[i];
        assert c in value;
      }
    }
  }

  // ----- keeping the connection -----

  /** Whether a request leaves the connection open: the first connection field decides,
      if it says one of two words in any case, and otherwise the version. */
  predicate Persists(headers: seq<Header>, version: Version) {
    || (exists k: nat | k < |headers| ::
          FirstAt(headers, "connection", k) && EqIgnoreCase(headers[k].value, "keep-alive"))
    || (version == Http11
        && !exists k: nat | k < |headers| ::
             FirstAt(headers, "connection", k) && EqIgnoreCase(headers[k].value, "close"))
  }

  lemma FirstIsUnique(headers: seq<Header>, name: bytes, i: nat, j: nat)
    requires i < |headers| && j < |headers| && FirstAt(headers, name, i) && FirstAt(headers, name, j)
    ensures i == j
  {
    hide EqIgnoreCase;
  }

  lemma KeepAliveIs(r: Request)
    ensures r.KeepAlive() <==> Persists(r.headers, r.version)
  {
    hide EqIgnoreCase; hide Named; hide Absent; hide FirstAt;
    var headers := r.headers;
    NamedIsAbsent(headers, "connection");
    if Named(headers, "connection") == [] {
      forall k: nat | k < |headers| ensures !FirstAt(headers, "connection", k) {
        AbsentIsNotFirst(headers, "connection", k);
      }
    } else {
      var k := NamedIsFirst(headers, "connection");
      forall j: nat | j < |headers| && FirstAt(headers, "connection", j) ensures j == k {
        FirstIsUnique(headers, "connection", j, k);
      }
      OneWord(headers[k].value);
    }
  }

  lemma AbsentIsNotFirst(headers: seq<Header>, name: bytes, k: nat)
    requires k < |headers| && Absent(headers, name)
    ensures !FirstAt(headers, name, k)
  {
    hide EqIgnoreCase;
  }

  lemma OneWord(value: bytes)
    ensures !(EqIgnoreCase(value, "close") && EqIgnoreCase(value, "keep-alive"))
  {
  }

  /** The cases, spelled out: no field, `close`, `keep-alive`, anything else. */
  lemma PersistsByCase(headers: seq<Header>, version: Version)
    ensures Absent(headers, "connection") ==> (Persists(headers, version) <==> version == Http11)
    ensures forall k: nat :: k < |headers| && FirstAt(headers, "connection", k) ==>
              && (EqIgnoreCase(headers[k].value, "close") ==> !Persists(headers, version))
              && (EqIgnoreCase(headers[k].value, "keep-alive") ==> Persists(headers, version))
              && (!EqIgnoreCase(headers[k].value, "close") && !EqIgnoreCase(headers[k].value, "keep-alive") ==>
                    (Persists(headers, version) <==> version == Http11))
  {
    hide EqIgnoreCase; hide Absent; hide FirstAt;
    if Absent(headers, "connection") {
      forall k: nat | k < |headers| ensures !FirstAt(headers, "connection", k) {
        AbsentIsNotFirst(headers, "connection", k);
      }
    }
    forall k: nat | k < |headers| && FirstAt(headers, "connection", k)
      ensures EqIgnoreCase(headers[k].value, "close") ==> !Persists(headers, version)
      ensures EqIgnoreCase(headers[k].value, "keep-alive") ==> Persists(headers, version)
      ensures !EqIgnoreCase(headers[k].value, "close") && !EqIgnoreCase(headers[k].value, "keep-alive") ==>
                (Persists(headers, version) <==> version == Http11)
    {
      OneWord(headers[k].value);
      forall j: nat | j < |headers| && FirstAt(headers, "connection", j) ensures j == k {
        FirstIsUnique(headers, "connection", j, k);
      }
    }
  }
}
