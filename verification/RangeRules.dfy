/** Every form of a range request, and what each is answered with (section 14 of RFC 9110). */
module RangeRules {
  import opened Bytes
  import opened Ascii
  import opened Numerals
  import opened Utf8
  import opened UnicodeSpaces
  import opened Http
  import opened Responses
  import opened HttpDate
  import opened Conditional

  /** An end of a range: left out, or a number with leading zeros and perhaps a plus. */
  datatype Bound = Open | Place(sign: bytes, zeros: nat, n: nat) {
    function Text(): bytes {
      match this case Open => [] case Place(sign, zeros, n) => Signed(sign, zeros, n)
    }

    predicate Valid() {
      Place? ==> sign in ["", "+"]
    }
  }

  /** A range with any whitespace around its two ends. */
  datatype Spec = Spec(
    outer: (seq<Space>, seq<Space>), first: Bound, afterFirst: seq<Space>, beforeLast: seq<Space>, last: Bound)
  {
    function Core(): bytes {
      first.Text() + SpacesOf(afterFirst) + ("-" + (SpacesOf(beforeLast) + last.Text()))
    }

    function Text(): bytes {
      "bytes=" + Around(outer.0, Core(), outer.1)
    }

    /** Without an end there is no whitespace beside it. */
    predicate Valid() {
      first.Valid() && last.Valid() && (first.Open? ==> afterFirst == []) && (last.Open? ==> beforeLast == [])
    }
  }

  /** What a range asks for, by its ends. */
  function Asked(first: Bound, last: Bound, length: nat): Option<RangeOutcome> {
    match (first, last)
    case (Open, Open) => None
    case (Open, Place(_, _, n)) =>
      if n > U64_MAX then None
      else if n == 0 || length == 0 then Some(Unsatisfiable)
      else Some(Satisfiable(if n < length then length - n else 0, length - 1))
    case (Place(_, _, a), Open) =>
      if a > U64_MAX then None else Some(if a < length then Satisfiable(a, length - 1) else Unsatisfiable)
    case (Place(_, _, a), Place(_, _, b)) =>
      if a > U64_MAX then None
      else if a >= length then Some(Unsatisfiable)
      else if b > U64_MAX then None
      else if b < a then Some(Unsatisfiable)
      else Some(Satisfiable(a, if b < length then b else length - 1))
  }

  lemma PlaceReads(b: Bound)
    requires b.Valid() && b.Place?
    ensures var s := b.Text();
            && ',' !in s && '-' !in s && s != [] && IsSolid(s[0]) && IsSolid(s[|s| - 1])
            && ParseU64(s) == if b.n <= U64_MAX then Some(b.n) else None
  {
    hide Print; hide Value; hide ParseU64; hide Zeros;
    var s, digits := b.Text(), Zeros(b.zeros) + Dec(b.n);
    NumeralValue(b.zeros, b.n);
    assert s == b.sign + digits && IsDigit(digits[0]) && IsDigit(digits[|digits| - 1]);
    assert s[|s| - 1] == digits[|digits| - 1];
    assert forall c :: c in s ==> c in b.sign || c in digits;
    forall c | c in digits ensures IsDigit(c) {
    }
    assert b.sign == "" || b.sign == "+";
    ParsesExactlyU64(s, b.n);
    if b.n <= U64_MAX {
      assert SpellsSigned(s, ["", "+"], b.n);
    } else if ParseU64(s).Some? {
      TooLarge(b);
    }
  }

  lemma TooLarge(b: Bound)
    requires b.Valid() && b.Place? && b.n > U64_MAX
    ensures ParseU64(b.Text()) == None
  {
    hide Print; hide Value; hide Zeros;
    NumeralValue(b.zeros, b.n);
    var digits := Zeros(b.zeros) + Dec(b.n);
    if b.sign == "+" {
      SignedParts(b.sign, b.zeros, b.n);
    } else {
      assert b.Text() == digits && IsDigit(digits[0]);
    }
  }

  lemma {:induction false} SpacesArePlain(scalars: seq<Space>)
    ensures ',' !in SpacesOf(scalars) && '-' !in SpacesOf(scalars)
  {
    hide Json.EncodeScalar;
    if scalars != [] {
      SpaceIsPlain(scalars[0]);
      SpacesArePlain(scalars[1..]);
    }
  }

  lemma SpaceIsPlain(c: Space)
    ensures ',' !in Json.EncodeScalar(c) && '-' !in Json.EncodeScalar(c)
  {
    assert IsSpaceScalar(c);
  }

  /** An end with the whitespace beside it trims to the end. */
  lemma EndTrims(e: Bound, before: seq<Space>, after: seq<Space>)
    requires e.Valid() && (e.Open? ==> before == [] && after == [])
    ensures Trim(Around(before, e.Text(), after)) == e.Text()
    ensures ',' !in Around(before, e.Text(), after) && '-' !in Around(before, e.Text(), after)
  {
    hide Signed; hide Trim; hide SpacesOf; hide ParseU64;
    SpacesArePlain(before);
    SpacesArePlain(after);
    if e.Place? {
      PlaceReads(e);
      TrimSpaced(before, e.Text(), after);
    } else {
      TrimNothing();
      NoSpaces();
      assert Around(before, e.Text(), after) == [];
    }
  }

  lemma NoSpaces()
    ensures SpacesOf([]) == []
  {
  }

  lemma CoreIsSolid(spec: Spec)
    requires spec.Valid()
    ensures var core := spec.Core(); core != [] && IsSolid(core[0]) && IsSolid(core[|core| - 1])
    ensures var left := spec.first.Text() + SpacesOf(spec.afterFirst);
            && '-' !in left && ',' !in spec.Core()
            && spec.Core() == left + ("-" + (SpacesOf(spec.beforeLast) + spec.last.Text()))
  {
    hide Bound.Text; hide Bound.Valid; hide SpacesOf; hide IsSolid;
    var left, right := spec.first.Text() + SpacesOf(spec.afterFirst), SpacesOf(spec.beforeLast) + spec.last.Text();
    LeftIs(spec.first, spec.afterFirst);
    RightIs(spec.beforeLast, spec.last);
    Ends(left, right, spec.first.Place?, spec.last.Place?);
    assert ',' !in "-";
    assert forall c :: c in spec.Core() ==> c in left || c in "-" || c in right;
  }

  lemma LeftIs(first: Bound, after: seq<Space>)
    requires first.Valid() && (first.Open? ==> after == [])
    ensures var left := first.Text() + SpacesOf(after);
            && '-' !in left && ',' !in left && Trim(left) == first.Text()
            && if first.Place? then left != [] && IsSolid(left[0]) else left == []
  {
    hide Signed; hide SpacesOf; hide ParseU64; hide IsSolid; hide Trim;
    NoSpaces();
    EndTrims(first, [], after);
    assert Around([], first.Text(), after) == first.Text() + SpacesOf(after);
    if first.Place? {
      PlaceReads(first);
    }
  }

  lemma RightIs(before: seq<Space>, last: Bound)
    requires last.Valid() && (last.Open? ==> before == [])
    ensures var right := SpacesOf(before) + last.Text();
            && '-' !in right && ',' !in right && Trim(right) == last.Text()
            && if last.Place? then right != [] && IsSolid(right[|right| - 1]) else right == []
  {
    hide Signed; hide SpacesOf; hide ParseU64; hide IsSolid; hide Trim;
    NoSpaces();
    EndTrims(last, before, []);
    assert Around(before, last.Text(), []) == SpacesOf(before) + last.Text();
    if last.Place? {
      PlaceReads(last);
    }
  }

  lemma Ends(left: bytes, right: bytes, first: bool, last: bool)
    requires if first then left != [] && IsSolid(left[0]) else left == []
    requires if last then right != [] && IsSolid(right[|right| - 1]) else right == []
    ensures var core := left + ("-" + right); IsSolid(core[0]) && IsSolid(core[|core| - 1])
  {
  }

  /** Every range is read as what it asks for, however it is spaced. */
  lemma RangeIs(spec: Spec, length: nat)
    requires spec.Valid()
    ensures ParseSingleRange(spec.Text(), length) == Asked(spec.first, spec.last, length)
  {
    hide Bound.Text; hide Bound.Valid; hide Trim; hide SpacesOf; hide IndexOf; hide ParseSingleRange; hide Asked;
    hide IsSolid;
    var core := spec.Core();
    var left, right := spec.first.Text() + SpacesOf(spec.afterFirst), SpacesOf(spec.beforeLast) + spec.last.Text();
    CoreIsSolid(spec);
    assert spec.Text()[6..] == Around(spec.outer.0, core, spec.outer.1);
    TrimSpaced(spec.outer.0, core, spec.outer.1);
    assert core[..|left|] == left && core[|left| + 1..] == right && core[|left|] == '-';
    IndexOfIs(core, '-', |left|);
    LeftIs(spec.first, spec.afterFirst);
    RightIs(spec.beforeLast, spec.last);
    PartsAsk(spec.Text(), core, |left|, spec.first, spec.last, length);
  }

  lemma PartsAsk(value: bytes, core: bytes, dash: nat, first: Bound, last: Bound, length: nat)
    requires first.Valid() && last.Valid() && "bytes=" <= value && Trim(value[6..]) == core && ',' !in core
    requires IndexOf(core, '-') == Some(dash) && Trim(core[..dash]) == first.Text()
    requires Trim(core[dash + 1..]) == last.Text()
    ensures ParseSingleRange(value, length) == Asked(first, last, length)
  {
    hide Trim; hide ParseU64; hide IndexOf; hide Bound.Text;
    BoundReads(first);
    BoundReads(last);
  }

  lemma BoundReads(b: Bound)
    requires b.Valid()
    ensures b.Open? <==> b.Text() == []
    ensures ParseU64(b.Text()) == if b.Place? && b.n <= U64_MAX then Some(b.n) else None
  {
    hide Signed; hide ParseU64;
    if b.Place? {
      PlaceReads(b);
    } else {
      NothingIsNoNumber();
    }
  }

  lemma NothingIsNoNumber()
    ensures ParseU64([]) == None
  {
  }

  /** The open-ended range: from a place to the end. */
  lemma OpenRangeReads(a: nat, length: nat)
    requires a <= U64_MAX
    ensures ParseSingleRange("bytes=" + (Dec(a) + "-"), length) ==
            Some(if a < length then Satisfiable(a, length - 1) else Unsatisfiable)
  {
    hide Print; hide ParseSingleRange;
    var spec := Spec(([], []), Place("", 0, a), [], [], Open);
    RangeIs(spec, length);
    NoSpaces();
    assert Signed("", 0, a) == Dec(a);
    assert spec.Core() == Dec(a) + "-";
    assert Around([], spec.Core(), []) == spec.Core();
  }

  /** Another unit, a list, or no hyphen. */
  predicate IsNoRange(value: bytes) {
    !("bytes=" <= value) || ',' in value[6..] || '-' !in value[6..]
  }

  /** Other units, lists and texts without a hyphen are no single range. */
  lemma OtherRangesAreIgnored(value: bytes, length: nat)
    requires IsNoRange(value)
    ensures ParseSingleRange(value, length) == None
  {
    hide ParseU64; hide Trim; hide SpacesOf;
    if "bytes=" <= value {
      var s := value[6..];
      var before, after := UnicodeSpaces.TrimSplits(s);
      SpacesArePlain(before);
      SpacesArePlain(after);
      assert forall c :: c in s <==> c in SpacesOf(before) || c in Trim(s) || c in SpacesOf(after);
      if '-' !in s {
        NotThere(Trim(s), '-');
      }
    }
  }

  lemma NotThere(s: bytes, c: byte)
    requires c !in s
    ensures IndexOf(s, c) == None
  {
  }

  // ----- no other text is a range -----

  lemma {:induction false} SpacesJoin(a: seq<Space>, b: seq<Space>)
    ensures SpacesOf(a + b) == SpacesOf(a) + SpacesOf(b)
  {
    hide Json.EncodeScalar;
    if a == [] {
      assert a + b == b;
    } else {
      assert (a + b)[1..] == a[1..] + b;
      SpacesJoin(a[1..], b);
    }
  }

  /** An end that reads as a number, or is blank, with the whitespace around it. */
  lemma EndParses(s: bytes) returns (before: seq<Space>, e: Bound, after: seq<Space>)
    requires Trim(s) == [] || ParseU64(Trim(s)).Some?
    ensures e.Valid() && s == Around(before, e.Text(), after) && (e.Open? <==> Trim(s) == [])
    ensures e.Place? ==> ParseU64(Trim(s)) == Some(e.n) && e.n <= U64_MAX
    ensures e.Text() == Trim(s)
  {
    hide Trim; hide ParseU64; hide SpacesOf;
    before, after := UnicodeSpaces.TrimSplits(s);
    if Trim(s) == [] {
      e := Open;
    } else {
      var n := ParseU64(Trim(s)).value;
      ParsesExactlyU64(Trim(s), n);
      var sign, zeros :| sign in ["", "+"] && Trim(s) == Signed(sign, zeros, n);
      e := Place(sign, zeros, n);
    }
  }

  /** A text whose first end lies at or beyond the length, whatever follows its hyphen. */
  ghost predicate IsBeyond(value: bytes, length: nat) {
    exists before: seq<Space>, first: Bound, after: seq<Space>, rest: bytes ::
      BeyondBy(value, length, before, first, after, rest)
  }

  predicate BeyondBy(
    value: bytes, length: nat, before: seq<Space>, first: Bound, after: seq<Space>, rest: bytes)
  {
    && first.Place? && first.Valid() && length <= first.n <= U64_MAX && ',' !in rest
    && value == "bytes=" + (SpacesOf(before) + (first.Text() + SpacesOf(after) + ("-" + rest)))
  }

  ghost predicate IsSpec(value: bytes, length: nat, outcome: RangeOutcome) {
    exists spec: Spec :: spec.Valid() && spec.Text() == value && Asked(spec.first, spec.last, length) == Some(outcome)
  }

  lemma {:induction false} TrimEndKeeps(core: bytes, rest: bytes) returns (k: nat)
    requires core != [] && IsSolid(core[|core| - 1])
    ensures k <= |rest| && TrimEnd(core + rest) == core + rest[..k]
    decreases |rest|
  {
    hide IsSolid; hide TrailingSpace;
    var s := core + rest;
    var w := TrailingSpace(s);
    if w == 0 {
      k := |rest|;
    } else {
      TrailingIsSpace(s);
      SpaceHasNoSolid(s[|s| - w..]);
      OnlyTheRest(core, rest, s[|s| - w..]);
      assert s[..|s| - w] == core + rest[..|rest| - w];
      k := TrimEndKeeps(core, rest[..|rest| - w]);
      assert rest[..|rest| - w][..k] == rest[..k];
    }
  }

  lemma OnlyTheRest(core: bytes, rest: bytes, tail: bytes)
    requires core != [] && IsSolid(core[|core| - 1]) && |tail| <= |core + rest|
    requires tail == (core + rest)[|core + rest| - |tail|..] && forall i :: 0 <= i < |tail| ==> !IsSolid(tail[i])
    ensures |tail| <= |rest|
  {
    hide IsSolid;
    if |tail| > |rest| {
      ByteOfSuffix(core, rest, |tail|);
    }
  }

  lemma ByteOfSuffix(core: bytes, rest: bytes, n: nat)
    requires core != [] && |rest| < n <= |core + rest|
    ensures (core + rest)[|core + rest| - n..][n - |rest| - 1] == core[|core| - 1]
  {
  }

  lemma SpaceHasNoSolid(c: bytes)
    requires IsSpaceChar(c)
    ensures forall i :: 0 <= i < |c| ==> !IsSolid(c[i])
  {
  }

  lemma BeyondIsUnsatisfiable(value: bytes, length: nat)
    requires IsBeyond(value, length)
    ensures ParseSingleRange(value, length) == Some(Unsatisfiable)
  {
    hide Signed; hide ParseU64; hide SpacesOf; hide IndexOf; hide TrimEnd; hide TrimStart; hide LeadingSpace;
    hide IsSolid;
    var before: seq<Space>, first: Bound, after: seq<Space>, rest: bytes :|
      BeyondBy(value, length, before, first, after, rest);
    var left := first.Text() + SpacesOf(after);
    var text := left + ("-" + rest);
    PlaceReads(first);
    NoSpaces();
    EndTrims(first, [], after);
    assert Around([], first.Text(), after) == left;
    assert value[6..] == SpacesOf(before) + text && text[0] == first.Text()[0];
    StartsSolid(text);
    TrimStartOf(before, text);
    HyphenIsSolid(left);
    var k := TrimEndKeeps(left + "-", rest);
    assert left + "-" + rest == text;
    var spec := left + "-" + rest[..k];
    assert Trim(value[6..]) == spec;
    assert ',' !in spec;
    assert spec[..|left|] == left && spec[|left|] == '-';
    IndexOfIs(spec, '-', |left|);
  }

  lemma StartsSolid(s: bytes)
    requires s != [] && IsSolid(s[0])
    ensures LeadingSpace(s) == 0
  {
  }

  lemma HyphenIsSolid(left: bytes)
    ensures var s := left + "-"; s != [] && IsSolid(s[|s| - 1])
  {
  }

  /** The parts of a text that was read as a range. */
  lemma RangeParts(value: bytes, length: nat)
    requires ParseSingleRange(value, length).Some?
    ensures "bytes=" <= value && IndexOf(Trim(value[6..]), '-').Some? && ',' !in Trim(value[6..])
    ensures var spec := Trim(value[6..]);
            var dash := IndexOf(spec, '-').value;
            var first, last := Trim(spec[..dash]), Trim(spec[dash + 1..]);
            && (first == [] || ParseU64(first).Some?)
            && (first == [] ==> ParseU64(last).Some?)
            && (last == [] || ParseU64(last).Some? || (ParseU64(first).Some? && ParseU64(first).value >= length))
  {
    hide ParseU64; hide Trim; hide IndexOf;
  }

  /** A text that was read as a range, put together from its two ends. */
  lemma Assembled(value: bytes) returns (pre: seq<Space>, left: bytes, right: bytes, post: seq<Space>)
    requires "bytes=" <= value && IndexOf(Trim(value[6..]), '-').Some?
    ensures var text := Trim(value[6..]); var dash := IndexOf(text, '-').value;
            left == text[..dash] && right == text[dash + 1..]
    ensures value == "bytes=" + (SpacesOf(pre) + (left + ("-" + right)) + SpacesOf(post))
  {
    hide Trim; hide SpacesOf; hide IndexOf;
    pre, post := UnicodeSpaces.TrimSplits(value[6..]);
    var text := Trim(value[6..]);
    var dash := IndexOf(text, '-').value;
    left, right := text[..dash], text[dash + 1..];
    assert text == left + ("-" + right);
    assert value == "bytes=" + value[6..];
  }

  lemma RangeIsSpelled(value: bytes, length: nat)
    requires ParseSingleRange(value, length).Some?
    ensures IsSpec(value, length, ParseSingleRange(value, length).value) || IsBeyond(value, length)
  {
    hide ParseU64; hide Trim; hide SpacesOf; hide ParseSingleRange; hide Bound.Text; hide Bound.Valid; hide Around;
    hide IsBeyond; hide Spec.Text; hide Spec.Valid; hide Asked;
    RangeParts(value, length);
    var pre, left, right, post := Assembled(value);
    var lb, first, la := EndParses(left);
    if Trim(right) == [] || ParseU64(Trim(right)).Some? {
      var rb, last, ra := EndParses(right);
      var spec := Spelled(value, pre, lb, first, la, rb, last, ra, post);
      RangeIs(spec, length);
    } else {
      BeyondSpelled(value, length, pre, lb, first, la, right, post);
    }
  }

  lemma BeyondSpelled(
    value: bytes, length: nat, pre: seq<Space>, lb: seq<Space>, first: Bound, la: seq<Space>, right: bytes,
    post: seq<Space>)
    requires first.Place? && first.Valid() && length <= first.n <= U64_MAX && ',' !in right
    requires value == "bytes=" + (SpacesOf(pre) + (Around(lb, first.Text(), la) + ("-" + right)) + SpacesOf(post))
    ensures IsBeyond(value, length)
  {
    hide SpacesOf; hide Bound.Text; hide Bound.Valid;
    var rest, f := right + SpacesOf(post), first.Text();
    SpacesArePlain(post);
    SpacesJoin(pre, lb);
    Regroup(SpacesOf(pre), SpacesOf(lb) + f + SpacesOf(la), right, SpacesOf(post));
    assert SpacesOf(pre + lb) + (f + SpacesOf(la) + ("-" + rest))
        == (SpacesOf(pre) + (SpacesOf(lb) + f + SpacesOf(la))) + "-" + (right + SpacesOf(post));
    assert BeyondBy(value, length, pre + lb, first, la, rest);
  }

  lemma Spelled(
    value: bytes, pre: seq<Space>, lb: seq<Space>, first: Bound, la: seq<Space>, rb: seq<Space>, last: Bound,
    ra: seq<Space>, post: seq<Space>)
    returns (spec: Spec)
    requires first.Valid() && last.Valid()
    requires value == "bytes=" + (SpacesOf(pre) + (Around(lb, first.Text(), la) + ("-" + Around(rb, last.Text(), ra)))
                                  + SpacesOf(post))
    ensures spec.Valid() && spec.Text() == value && spec.first == first && spec.last == last
  {
    hide Signed; hide SpacesOf;
    NoSpaces();
    var front := if first.Open? then pre + lb + la else pre + lb;
    var back := if last.Open? then rb + ra + post else ra + post;
    spec := Spec((front, back), first, if first.Open? then [] else la, if last.Open? then [] else rb, last);
    var f, l := first.Text(), last.Text();
    LeftPart(pre, lb, first, la);
    RightPart(rb, last, ra, post);
    Regroup(SpacesOf(pre), SpacesOf(lb) + f + SpacesOf(la), SpacesOf(rb) + l + SpacesOf(ra), SpacesOf(post));
    Regroup(SpacesOf(front), f + SpacesOf(spec.afterFirst), SpacesOf(spec.beforeLast) + l, SpacesOf(back));
    Flatten(SpacesOf(pre), SpacesOf(lb), f, SpacesOf(la));
    Flatten(SpacesOf(rb), l, SpacesOf(ra), SpacesOf(post));
  }

  lemma Regroup(a: bytes, left: bytes, right: bytes, b: bytes)
    ensures a + (left + ("-" + right)) + b == (a + left) + "-" + (right + b)
  {
  }

  lemma Flatten(a: bytes, b: bytes, c: bytes, d: bytes)
    ensures a + (b + c + d) == a + b + c + d
  {
  }

  lemma LeftPart(pre: seq<Space>, lb: seq<Space>, first: Bound, la: seq<Space>)
    ensures SpacesOf(if first.Open? then pre + lb + la else pre + lb)
            + (first.Text() + SpacesOf(if first.Open? then [] else la))
            == SpacesOf(pre) + SpacesOf(lb) + first.Text() + SpacesOf(la)
  {
    hide Signed; hide SpacesOf;
    NoSpaces();
    SpacesJoin(pre, lb);
    SpacesJoin(pre + lb, la);
  }

  lemma RightPart(rb: seq<Space>, last: Bound, ra: seq<Space>, post: seq<Space>)
    ensures SpacesOf(if last.Open? then [] else rb) + last.Text()
            + SpacesOf(if last.Open? then rb + ra + post else ra + post)
            == SpacesOf(rb) + last.Text() + SpacesOf(ra) + SpacesOf(post)
  {
    hide Signed; hide SpacesOf;
    NoSpaces();
    SpacesJoin(ra, post);
    SpacesJoin(rb, ra);
    SpacesJoin(rb + ra, post);
  }

  /** The texts that are read as ranges, all of them, and as what. */
  lemma ParsesExactlyRanges(value: bytes, length: nat, outcome: RangeOutcome)
    ensures ParseSingleRange(value, length) == Some(outcome) <==>
            IsSpec(value, length, outcome) || (outcome == Unsatisfiable && IsBeyond(value, length))
  {
    hide ParseSingleRange; hide Spec.Text; hide Spec.Valid; hide Asked; hide IsBeyond;
    if ParseSingleRange(value, length) == Some(outcome) {
      RangeIsSpelled(value, length);
      if IsBeyond(value, length) {
        BeyondIsUnsatisfiable(value, length);
      }
    }
    if IsSpec(value, length, outcome) {
      var spec: Spec :| spec.Valid() && spec.Text() == value && Asked(spec.first, spec.last, length) == Some(outcome);
      RangeIs(spec, length);
    }
    if outcome == Unsatisfiable && IsBeyond(value, length) {
      BeyondIsUnsatisfiable(value, length);
    }
  }

  // ----- answers -----

  /** A request for a range, unconditional. */
  ghost predicate AsksRange(request: Request, value: bytes) {
    && request.Field("if-none-match").None? && request.Field("if-modified-since").None?
    && request.Field("range") == Some(value)
  }

  /** A resumed download gets everything from the place it asks for, as 206. */
  lemma OpenRangeIsServed(request: Request, response: Response, a: nat)
    requires response.status == 200 && |response.body| <= U64_MAX && a < |response.body|
    requires AsksRange(request, "bytes=" + (Dec(a) + "-"))
    ensures var r := Evaluated(request, response); var length := |response.body|;
            && r.status == 206 && r.body == response.body[a..]
            && r.Field("content-range") ==
               Some("bytes " + Dec(a) + "-" + Dec(length - 1) + "/" + Dec(length))
  {
    hide Print; hide ParseSingleRange; hide Response.Field; hide Conditional.Partial;
    OpenRangeReads(a, |response.body|);
    PartialFields(response, a, |response.body| - 1);
    PartialBody(response, a, |response.body| - 1);
  }

  lemma PartialBody(response: Response, start: nat, end: nat)
    requires start <= end < |response.body|
    ensures var r := Conditional.Partial(response, start, end);
            r.status == 206 && r.body == response.body[start..end + 1]
  {
    hide Print; hide Response.Field; hide WithCopied;
    var range := "bytes " + Dec(start) + "-" + Dec(end) + "/" + Dec(|response.body|);
    CopiedKeeps(Response(206, [], []).WithHeader("Accept-Ranges", "bytes").WithHeader("Content-Range", range),
                response, ["Content-Type", "ETag", "Last-Modified"]);
  }

  lemma PartialAccepts(response: Response, start: nat, end: nat)
    requires start <= end < |response.body|
    ensures Conditional.Partial(response, start, end).Field("accept-ranges") == Some("bytes")
  {
    hide EqIgnoreCase; hide Response.Field; hide WithCopied; hide Print; hide Lists;
    var key := "accept-ranges";
    var text := "bytes " + Dec(start) + "-" + Dec(end) + "/" + Dec(|response.body|);
    var names := ["Content-Type", "ETag", "Last-Modified"];
    var ranged := Response(206, [], []).WithHeader("Accept-Ranges", "bytes");
    var base := ranged.WithHeader("Content-Range", text);
    NoField(206, key);
    AcceptName();
    FieldAdded(Response(206, [], []), "Accept-Ranges", "bytes", key);
    FieldAdded(ranged, "Content-Range", text, key);
    CopiedField(base, response, names, key);
    BodyKeepsFields(WithCopied(base, response, names), response.body[start..end + 1], key);
  }

  lemma AcceptName()
    ensures EqIgnoreCase("Accept-Ranges", "accept-ranges")
  {
  }

  /** Every range request, by what it asks for: the slice as 206 with where it belongs,
      or 416 with the length alone, or the whole response. */
  lemma RangeIsAnswered(request: Request, response: Response, spec: Spec)
    requires response.status == 200 && spec.Valid() && AsksRange(request, spec.Text())
    ensures var r := Evaluated(request, response); var length := |response.body|;
            match Asked(spec.first, spec.last, length)
            case None => r == response
            case Some(Unsatisfiable) => r == Response(416, [Header("Content-Range", "bytes */" + Dec(length))], [])
            case Some(Satisfiable(a, b)) =>
              && a <= b < length && r.status == 206 && r.body == response.body[a..b + 1]
              && r.Field("content-range") == Some("bytes " + Dec(a) + "-" + Dec(b) + "/" + Dec(length))
              && r.Field("content-type") == response.Field("content-type")
              && r.Field("etag") == response.Field("etag")
              && r.Field("last-modified") == response.Field("last-modified")
              && r.Field("accept-ranges") == Some("bytes")
  {
    hide Print; hide ParseSingleRange; hide Response.Field; hide Conditional.Partial; hide Spec.Text;
    RangeIs(spec, |response.body|);
    match Asked(spec.first, spec.last, |response.body|)
    case Some(Satisfiable(a, b)) =>
      PartialFields(response, a, b);
      PartialBody(response, a, b);
      PartialAccepts(response, a, b);
    case _ =>
  }

  /** A request that is not unconditional, not for one range, or not for a plain 200. */
  lemma OthersAreUnchanged(request: Request, response: Response)
    ensures response.status != 200 ==> Evaluated(request, response) == response
    ensures !NotModified(request, response) && request.Field("range").None? ==>
              Evaluated(request, response) == response
    ensures forall value :: AsksRange(request, value) && IsNoRange(value) ==>
              Evaluated(request, response) == response
  {
    hide ParseSingleRange; hide Response.Field; hide Request.Field; hide Conditional.Partial; hide NotModifiedResponse;
    forall value | AsksRange(request, value) && IsNoRange(value)
      ensures Evaluated(request, response) == response
    {
      OtherRangesAreIgnored(value, |response.body|);
    }
  }

  // ----- preconditions in full -----

  /** If-None-Match with a star holds for any current copy. */
  lemma StarMatches(request: Request, response: Response, before: seq<Space>, after: seq<Space>)
    requires response.status == 200 && request.Field("if-none-match") == Some(Around(before, "*", after))
    ensures Evaluated(request, response) == NotModifiedResponse(response)
  {
    hide SpacesOf; hide Response.Field; hide Request.Field; hide ParseHttpDate; hide Trim; hide NotModifiedResponse;
    TrimSpaced(before, "*", after);
  }

  /** Without both validators, or with a date that is none, nothing is current. */
  lemma NothingToCompare(request: Request, response: Response)
    requires request.Field("if-none-match").None?
    requires
      || request.Field("if-modified-since").None? || response.Field("last-modified").None?
      || ParseHttpDate(request.Field("if-modified-since").value).None?
    ensures !NotModified(request, response)
  {
    hide ParseHttpDate; hide Response.Field; hide Request.Field;
  }

  /** A tag as it is written: the length and the time in hexadecimal, a hyphen between. */
  lemma TagIs()
    ensures Etag(0x1f4, 0xa0) == "\"1f4-a0\""
  {
    assert Hex(0x1f) == Hex(1) + [DigitChar(15)];
    assert Hex(0x1f4) == Hex(0x1f) + [DigitChar(4)];
    assert Hex(0xa0) == Hex(0xa) + [DigitChar(0)];
  }

  /** A served file says what it is, that ranges are welcome, and its validators. */
  lemma FileIs(contentType: bytes, body: bytes, mtime: Option<nat>)
    ensures FileResponse(contentType, body, mtime) ==
            Response(200,
                     [Header("Content-Type", contentType), Header("Accept-Ranges", "bytes")]
                     + (if mtime.None? then []
                        else [Header("Last-Modified", HttpDateOf(mtime.value)),
                            Header("ETag", Etag(|body|, mtime.value))]),
                     body)
  {
    hide HttpDateOf; hide Etag;
  }
}
