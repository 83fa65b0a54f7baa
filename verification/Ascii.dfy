/** ASCII classes, case-insensitive comparison and optional-whitespace trimming. */
module Ascii {
  import opened Bytes

  predicate IsDigit(c: byte) {
    '0' <= c <= '9'
  }

  predicate IsAlpha(c: byte) {
    'a' <= c <= 'z' || 'A' <= c <= 'Z'
  }

  function ToLower(c: byte): byte {
    if 'A' <= c <= 'Z' then (c as int + 32) as char else c
  }

  predicate EqIgnoreCase(a: bytes, b: bytes) {
    |a| == |b| && forall i :: 0 <= i < |a| ==> ToLower(a[i]) == ToLower(b[i])
  }

  /** Two bytes that differ in case only. */
  predicate SameLetter(a: byte, b: byte) {
    || a == b
    || ('a' <= a <= 'z' && b as int == a as int - 32)
    || ('a' <= b <= 'z' && a as int == b as int - 32)
  }

  lemma EqIgnoreCaseIs(a: bytes, b: bytes)
    ensures EqIgnoreCase(a, b) <==> |a| == |b| && forall i :: 0 <= i < |a| ==> SameLetter(a[i], b[i])
  {
  }

  /** Token characters of a field name (section 5.6.2 of RFC 9110). */
  predicate IsTokenByte(c: byte) {
    IsAlpha(c) || IsDigit(c) || c in "!#$%&'*+-.^_`|~"
  }

  predicate IsToken(s: bytes) {
    s != [] && forall i :: 0 <= i < |s| ==> IsTokenByte(s[i])
  }

  /** A token holds neither a separator nor a control byte. */
  lemma TokenByteIsPlain(c: byte)
    requires IsTokenByte(c)
    ensures c > ' ' && c != ':' && c != '\r' && c != '\n'
  {
  }

  // ----- optional whitespace -----

  predicate IsOws(c: byte) {
    c == ' ' || c == '\t'
  }

  predicate AllOws(s: bytes) {
    forall i :: 0 <= i < |s| ==> IsOws(s[i])
  }

  predicate IsTrimmed(s: bytes) {
    s == [] || (!IsOws(s[0]) && !IsOws(s[|s| - 1]))
  }

  function TrimmedStart(s: bytes): bytes {
    if s != [] && IsOws(s[0]) then TrimmedStart(s[1..]) else s
  }

  function TrimmedEnd(s: bytes): bytes {
    if s != [] && IsOws(s[|s| - 1]) then TrimmedEnd(s[..|s| - 1]) else s
  }

  function TrimmedOws(s: bytes): bytes {
    TrimmedEnd(TrimmedStart(s))
  }

  method TrimOws(s: bytes) returns (r: bytes)
    ensures r == TrimmedOws(s)
  {
    r := s;
    while r != [] && IsOws(r[0])
      invariant TrimmedStart(r) == TrimmedStart(s)
      decreases |r|
    {
      r := r[1..];
    }
    ghost var front := r;
    while r != [] && IsOws(r[|r| - 1])
      invariant TrimmedEnd(r) == TrimmedEnd(front)
      decreases |r|
    {
      r := r[..|r| - 1];
    }
  }

  lemma {:induction false} TrimmedStartSplits(s: bytes) returns (pre: bytes)
    ensures AllOws(pre) && s == pre + TrimmedStart(s)
    ensures TrimmedStart(s) != [] ==> !IsOws(TrimmedStart(s)[0])
  {
    hide IsOws;
    if s != [] && IsOws(s[0]) {
      var more := TrimmedStartSplits(s[1..]);
      pre := [s[0]] + more;
      assert s == [s[0]] + (more + TrimmedStart(s));
    } else {
      pre := [];
    }
  }

  lemma {:induction false} TrimmedEndSplits(s: bytes) returns (post: bytes)
    ensures AllOws(post) && s == TrimmedEnd(s) + post
    ensures TrimmedEnd(s) != [] ==> !IsOws(TrimmedEnd(s)[|TrimmedEnd(s)| - 1])
  {
    hide IsOws;
    if s != [] && IsOws(s[|s| - 1]) {
      var less := TrimmedEndSplits(s[..|s| - 1]);
      post := less + [s[|s| - 1]];
      assert s == (TrimmedEnd(s) + less) + [s[|s| - 1]];
    } else {
      post := [];
    }
  }

  /** Trimming takes whitespace off both ends and nothing else. */
  lemma TrimSplits(s: bytes) returns (pre: bytes, post: bytes)
    ensures AllOws(pre) && AllOws(post) && s == pre + TrimmedOws(s) + post
    ensures IsTrimmed(TrimmedOws(s))
  {
    pre := TrimmedStartSplits(s);
    post := TrimmedEndSplits(TrimmedStart(s));
  }

  /** Whitespace put around a trimmed value is what trimming removes. */
  lemma {:induction false} TrimPadded(pre: bytes, core: bytes, post: bytes)
    requires AllOws(pre) && AllOws(post) && IsTrimmed(core)
    ensures TrimmedOws(pre + core + post) == core
    decreases |pre| + |post|
  {
    var s := pre + core + post;
    if pre != [] {
      assert s[1..] == pre[1..] + core + post;
      TrimPadded(pre[1..], core, post);
    } else if core == [] && post != [] {
      assert s == post && s[1..] == [] + core + post[1..];
      TrimPadded([], core, post[1..]);
    } else {
      assert s == core + post;
      TrimmedEndPadded(core, post);
    }
  }

  lemma {:induction false} TrimmedEndPadded(core: bytes, post: bytes)
    requires AllOws(post) && IsTrimmed(core)
    ensures TrimmedEnd(core + post) == core
  {
    var s := core + post;
    if post != [] {
      assert s[..|s| - 1] == core + post[..|post| - 1];
      TrimmedEndPadded(core, post[..|post| - 1]);
    } else {
      assert s == core;
    }
  }
}
