/** Well-formed UTF-8 and Unicode whitespace, on the bytes of a string. */
module Utf8 {
  import opened Bytes
  import Ascii

  predicate In(s: bytes, i: nat, lo: int, hi: int) {
    i < |s| && lo <= s[i] as int <= hi
  }

  predicate Tail(s: bytes, i: nat) {
    In(s, i, 0x80, 0xBF)
  }

  /** Width of the well-formed sequence that `s` begins with, 0 if there is none
      (Table 3-7 of the Unicode standard, which the standard library enforces). */
  function LeadWidth(s: bytes): (w: nat)
    ensures w <= |s| && w <= 4
  {
    if In(s, 0, 0x00, 0x7F) then 1
    else if In(s, 0, 0xC2, 0xDF) && Tail(s, 1) then 2
    else if In(s, 0, 0xE0, 0xE0) && In(s, 1, 0xA0, 0xBF) && Tail(s, 2) then 3
    else if (In(s, 0, 0xE1, 0xEC) || In(s, 0, 0xEE, 0xEF)) && Tail(s, 1) && Tail(s, 2) then 3
    else if In(s, 0, 0xED, 0xED) && In(s, 1, 0x80, 0x9F) && Tail(s, 2) then 3
    else if In(s, 0, 0xF0, 0xF0) && In(s, 1, 0x90, 0xBF) && Tail(s, 2) && Tail(s, 3) then 4
    else if In(s, 0, 0xF1, 0xF3) && Tail(s, 1) && Tail(s, 2) && Tail(s, 3) then 4
    else if In(s, 0, 0xF4, 0xF4) && In(s, 1, 0x80, 0x8F) && Tail(s, 2) && Tail(s, 3) then 4
    else 0
  }

  predicate ValidUtf8(s: bytes) {
    s == [] || (LeadWidth(s) > 0 && ValidUtf8(s[LeadWidth(s)..]))
  }

  predicate IsAscii(s: bytes) {
    forall i :: 0 <= i < |s| ==> s[i] as int < 0x80
  }

  lemma {:induction false} AsciiIsValid(s: bytes)
    requires IsAscii(s)
    ensures ValidUtf8(s)
  {
    if s != [] {
      AsciiIsValid(s[1..]);
    }
  }

  // ----- Unicode whitespace (`str::trim`) -----

  predicate IsAsciiSpace(c: byte) {
    0x09 <= c as int <= 0x0D || c == ' '
  }

  /** A multi-byte White_Space character: U+0085, U+00A0, U+1680, U+2000 to
      U+200A, U+2028, U+2029, U+202F, U+205F and U+3000. */
  predicate IsWideSpace(s: bytes) {
    || (|s| == 2 && In(s, 0, 0xC2, 0xC2) && (In(s, 1, 0x85, 0x85) || In(s, 1, 0xA0, 0xA0)))
    || (|s| == 3 && In(s, 0, 0xE1, 0xE1) && In(s, 1, 0x9A, 0x9A) && In(s, 2, 0x80, 0x80))
    || (|s| == 3 && In(s, 0, 0xE2, 0xE2) && In(s, 1, 0x80, 0x80)
        && (In(s, 2, 0x80, 0x8A) || In(s, 2, 0xA8, 0xA9) || In(s, 2, 0xAF, 0xAF)))
    || (|s| == 3 && In(s, 0, 0xE2, 0xE2) && In(s, 1, 0x81, 0x81) && In(s, 2, 0x9F, 0x9F))
    || (|s| == 3 && In(s, 0, 0xE3, 0xE3) && In(s, 1, 0x80, 0x80) && In(s, 2, 0x80, 0x80))
  }

  function LeadingSpace(s: bytes): (w: nat)
    ensures w <= |s|
  {
    if s != [] && IsAsciiSpace(s[0]) then 1
    else if |s| >= 2 && IsWideSpace(s[..2]) then 2
    else if |s| >= 3 && IsWideSpace(s[..3]) then 3
    else 0
  }

  function TrailingSpace(s: bytes): (w: nat)
    ensures w <= |s|
  {
    if s != [] && IsAsciiSpace(s[|s| - 1]) then 1
    else if |s| >= 2 && IsWideSpace(s[|s| - 2..]) then 2
    else if |s| >= 3 && IsWideSpace(s[|s| - 3..]) then 3
    else 0
  }

  function TrimStart(s: bytes): bytes {
    if LeadingSpace(s) == 0 then s else TrimStart(s[LeadingSpace(s)..])
  }

  function TrimEnd(s: bytes): bytes {
    if TrailingSpace(s) == 0 then s else TrimEnd(s[..|s| - TrailingSpace(s)])
  }

  function Trim(s: bytes): bytes {
    TrimEnd(TrimStart(s))
  }

  predicate IsSolid(c: byte) {
    0x21 <= c as int <= 0x7E
  }

  /** Text with printable ASCII at both ends has nothing to trim. */
  lemma TrimSolid(s: bytes)
    requires s != [] && IsSolid(s[0]) && IsSolid(s[|s| - 1])
    ensures Trim(s) == s
  {
    assert LeadingSpace(s) == 0;
    assert TrailingSpace(s) == 0;
  }

  /** Spaces and tabs around text with printable ASCII at both ends are all that
      trimming removes. */
  lemma {:induction false} TrimAround(pre: bytes, core: bytes, post: bytes)
    requires core != [] && IsSolid(core[0]) && IsSolid(core[|core| - 1])
    requires Ascii.AllOws(pre) && Ascii.AllOws(post)
    ensures Trim(pre + core + post) == core
  {
    TrimStartAround(pre, core + post);
    assert pre + (core + post) == pre + core + post;
    TrimEndAround(core, post);
  }

  lemma {:induction false} TrimStartAround(pre: bytes, rest: bytes)
    requires Ascii.AllOws(pre) && rest != [] && IsSolid(rest[0])
    ensures TrimStart(pre + rest) == rest
    decreases |pre|
  {
    var s := pre + rest;
    if pre == [] {
      assert s == rest;
      assert LeadingSpace(s) == 0;
    } else {
      assert LeadingSpace(s) == 1;
      assert s[1..] == pre[1..] + rest;
      TrimStartAround(pre[1..], rest);
    }
  }

  lemma {:induction false} TrimEndAround(core: bytes, post: bytes)
    requires Ascii.AllOws(post) && core != [] && IsSolid(core[|core| - 1])
    ensures TrimEnd(core + post) == core
    decreases |post|
  {
    var s := core + post;
    if post == [] {
      assert s == core;
      assert TrailingSpace(s) == 0;
    } else {
      assert TrailingSpace(s) == 1;
      assert s[..|s| - 1] == core + post[..|post| - 1];
      TrimEndAround(core, post[..|post| - 1]);
    }
  }
}
