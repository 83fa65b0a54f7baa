/** Unicode whitespace character by character, and what trimming takes off a text. */
module UnicodeSpaces {
  import opened Bytes
  import Ascii
  import opened Utf8
  import Json
  import JsonUnicode

  /** The scalar values with the White_Space property. */
  predicate IsSpaceScalar(c: nat) {
    || 0x09 <= c <= 0x0D || c == 0x20 || c == 0x85 || c == 0xA0 || c == 0x1680
    || 0x2000 <= c <= 0x200A || c == 0x2028 || c == 0x2029 || c == 0x202F || c == 0x205F || c == 0x3000
  }

  type Space = c: nat | c < 0x11_0000 && IsSpaceScalar(c) witness 0x20

  /** A text of whitespace characters only. */
  function SpacesOf(scalars: seq<Space>): bytes {
    if scalars == [] then [] else Json.EncodeScalar(scalars[0]) + SpacesOf(scalars[1..])
  }

  /** A text between whitespace. */
  function Around(before: seq<Space>, text: bytes, after: seq<Space>): bytes {
    SpacesOf(before) + text + SpacesOf(after)
  }

  /** One whitespace character, as bytes. */
  predicate IsSpaceChar(s: bytes) {
    (|s| == 1 && IsAsciiSpace(s[0])) || IsWideSpace(s)
  }

  lemma ScalarIsSpaceChar(c: Space)
    ensures IsSpaceChar(Json.EncodeScalar(c))
  {
    assert IsSpaceScalar(c);
    if c == 0x1680 {
      JsonUnicode.SplitThree(c, 1, 26, 0);
    } else if 0x2000 <= c <= 0x202F {
      JsonUnicode.SplitThree(c, 2, 0, c - 0x2000);
      PunctuationIsWide(c - 0x2000);
    } else if c == 0x205F {
      JsonUnicode.SplitThree(c, 2, 1, 31);
    } else if c == 0x3000 {
      JsonUnicode.SplitThree(c, 3, 0, 0);
    }
  }

  lemma PunctuationIsWide(d: nat)
    requires d <= 0x0A || d == 0x28 || d == 0x29 || d == 0x2F
    ensures IsWideSpace([Json.ByteChar(0xE2), Json.ByteChar(0x80), Json.ByteChar(0x80 + d)])
  {
    var s := [Json.ByteChar(0xE2), Json.ByteChar(0x80), Json.ByteChar(0x80 + d)];
    assert In(s, 0, 0xE2, 0xE2) && In(s, 1, 0x80, 0x80);
    assert s[2] as int == 0x80 + d;
    assert In(s, 2, 0x80, 0x8A) || In(s, 2, 0xA8, 0xA9) || In(s, 2, 0xAF, 0xAF);
  }

  /** The scalar value of a whitespace character. */
  lemma SpaceCharIsScalar(s: bytes) returns (c: Space)
    requires IsSpaceChar(s)
    ensures Json.EncodeScalar(c) == s
  {
    if |s| == 1 {
      c := s[0] as int;
    } else if |s| == 2 {
      c := s[1] as int;
      assert s == [s[0], s[1]];
    } else {
      c := WideScalar(s);
    }
  }

  lemma WideScalar(s: bytes) returns (c: Space)
    requires |s| == 3 && IsWideSpace(s)
    ensures Json.EncodeScalar(c) == s
  {
    var a, b, d := s[0] as int - 0xE0, s[1] as int - 0x80, s[2] as int - 0x80;
    c := a * 4096 + b * 64 + d;
    JsonUnicode.SplitThree(c, a, b, d);
    assert s == [s[0], s[1], s[2]];
  }

  // ----- spaces around a text are what trimming removes -----

  lemma LeadingIs(c: bytes, rest: bytes)
    requires IsSpaceChar(c)
    ensures LeadingSpace(c + rest) == |c|
  {
    var s := c + rest;
    assert s[..|c|] == c && s[0] == c[0];
    if |c| == 3 {
      assert s[..2][0] == c[0] && s[..2][1] == c[1];
    }
  }

  lemma TrailingIs(c: bytes, rest: bytes)
    requires IsSpaceChar(c)
    ensures TrailingSpace(rest + c) == |c|
  {
    var s := rest + c;
    assert s[|s| - |c|..] == c && s[|s| - 1] == c[|c| - 1];
    if |c| == 3 {
      assert s[|s| - 2..][0] == c[1] && s[|s| - 2..][1] == c[2];
    }
  }

  lemma {:induction false} TrimStartOf(scalars: seq<Space>, rest: bytes)
    requires LeadingSpace(rest) == 0
    ensures TrimStart(SpacesOf(scalars) + rest) == rest
  {
    hide LeadingSpace; hide Json.EncodeScalar; hide IsSpaceChar; hide IsSpaceScalar;
    if scalars == [] {
      assert SpacesOf(scalars) + rest == rest;
    } else {
      var c, more := Json.EncodeScalar(scalars[0]), SpacesOf(scalars[1..]) + rest;
      ScalarIsSpaceChar(scalars[0]);
      assert SpacesOf(scalars) + rest == c + more;
      SpaceIsSomething(c);
      LeadingIs(c, more);
      assert (c + more)[|c|..] == more;
      TrimStartOf(scalars[1..], rest);
    }
  }

  lemma SpaceIsSomething(c: bytes)
    requires IsSpaceChar(c)
    ensures c != []
  {
  }

  lemma {:induction false} SpacesAppend(a: seq<Space>, c: Space)
    ensures SpacesOf(a + [c]) == SpacesOf(a) + Json.EncodeScalar(c)
  {
    hide Json.EncodeScalar; hide IsSpaceScalar;
    if a == [] {
      assert [] + [c] == [c] && [c][1..] == [];
      assert SpacesOf([c]) == Json.EncodeScalar(c) + SpacesOf([]);
    } else {
      assert (a + [c])[1..] == a[1..] + [c];
      SpacesAppend(a[1..], c);
    }
  }

  lemma {:induction false} TrimEndOf(core: bytes, scalars: seq<Space>)
    requires TrailingSpace(core) == 0
    ensures TrimEnd(core + SpacesOf(scalars)) == core
    decreases |scalars|
  {
    hide TrailingSpace; hide Json.EncodeScalar; hide IsSpaceChar; hide IsSpaceScalar;
    if scalars == [] {
      assert core + SpacesOf(scalars) == core;
    } else {
      var n := |scalars| - 1;
      var c, less := Json.EncodeScalar(scalars[n]), core + SpacesOf(scalars[..n]);
      assert scalars == scalars[..n] + [scalars[n]];
      SpacesAppend(scalars[..n], scalars[n]);
      ScalarIsSpaceChar(scalars[n]);
      assert core + SpacesOf(scalars) == less + c;
      SpaceIsSomething(c);
      TrailingIs(c, less);
      assert (less + c)[..|less + c| - |c|] == less;
      TrimEndOf(core, scalars[..n]);
    }
  }

  /** Whitespace of any kind around text that starts and ends with visible ASCII is
      exactly what trimming takes off. */
  lemma TrimSpaced(pre: seq<Space>, core: bytes, post: seq<Space>)
    requires core != [] && IsSolid(core[0]) && IsSolid(core[|core| - 1])
    ensures Trim(SpacesOf(pre) + core + SpacesOf(post)) == core
  {
    hide IsSpaceScalar; hide SpacesOf;
    var rest := core + SpacesOf(post);
    assert SpacesOf(pre) + core + SpacesOf(post) == SpacesOf(pre) + rest;
    SolidIsNoSpace(core, SpacesOf(post));
    TrimStartOf(pre, rest);
    TrimEndOf(core, post);
  }

  lemma SolidIsNoSpace(core: bytes, rest: bytes)
    requires core != [] && IsSolid(core[0]) && IsSolid(core[|core| - 1])
    ensures LeadingSpace(core + rest) == 0 && TrailingSpace(core) == 0
  {
  }

  // ----- whatever is trimmed off is whitespace -----

  lemma LeadingIsSpace(s: bytes)
    requires LeadingSpace(s) > 0
    ensures IsSpaceChar(s[..LeadingSpace(s)])
  {
  }

  lemma TrailingIsSpace(s: bytes)
    requires TrailingSpace(s) > 0
    ensures IsSpaceChar(s[|s| - TrailingSpace(s)..])
  {
  }

  lemma {:induction false} TrimStartSplits(s: bytes) returns (pre: seq<Space>)
    ensures s == SpacesOf(pre) + TrimStart(s)
    decreases |s|
  {
    hide LeadingSpace; hide Json.EncodeScalar; hide IsSpaceChar; hide IsSpaceScalar;
    var w := LeadingSpace(s);
    if w == 0 {
      pre := [];
    } else {
      LeadingIsSpace(s);
      var c := SpaceCharIsScalar(s[..w]);
      var more := TrimStartSplits(s[w..]);
      pre := [c] + more;
      assert pre[1..] == more;
      assert s == s[..w] + (SpacesOf(more) + TrimStart(s));
    }
  }

  lemma {:induction false} TrimEndSplits(s: bytes) returns (post: seq<Space>)
    ensures s == TrimEnd(s) + SpacesOf(post)
    decreases |s|
  {
    hide TrailingSpace; hide Json.EncodeScalar; hide IsSpaceChar; hide IsSpaceScalar;
    var w := TrailingSpace(s);
    if w == 0 {
      post := [];
    } else {
      TrailingIsSpace(s);
      var c := SpaceCharIsScalar(s[|s| - w..]);
      var less := TrimEndSplits(s[..|s| - w]);
      SpacesAppend(less, c);
      post := less + [c];
      assert s == s[..|s| - w] + s[|s| - w..];
    }
  }

  /** A text is its trimmed core between whitespace. */
  lemma TrimSplits(s: bytes) returns (pre: seq<Space>, post: seq<Space>)
    ensures s == SpacesOf(pre) + Trim(s) + SpacesOf(post)
  {
    pre := TrimStartSplits(s);
    post := TrimEndSplits(TrimStart(s));
  }
}
