/** Byte strings, first-occurrence search and CRLF lines.

    A byte is modelled as the character with that code, so that the protocol's
    text can be written as string literals. Nothing below looks further than
    comparing bytes, so every statement covers all byte strings (and more). */
module Bytes {
  type byte = char
  type bytes = seq<byte>

  datatype Option<+T> = None | Some(value: T)

  datatype Result<+T, +E> = Ok(value: T) | Err(error: E) {
    predicate IsFailure() {
      Err?
    }

    function PropagateFailure<U>(): Result<U, E>
      requires Err?
    {
      Err(error)
    }

    function Extract(): T
      requires Ok?
    {
      value
    }
  }

  const CRLF: bytes := "\r\n"
  const BLANK: bytes := "\r\n\r\n"

  // ----- first occurrence of a needle -----

  predicate MatchAt(h: bytes, n: bytes, i: nat) {
    i + |n| <= |h| && h[i..i + |n|] == n
  }

  /** Index of the first match of `n` at or after `i`. */
  function FindFrom(h: bytes, n: bytes, i: nat): (r: Option<nat>)
    requires i <= |h| && |n| > 0
    ensures r.Some? ==> i <= r.value && MatchAt(h, n, r.value)
    decreases |h| - i
  {
    if i + |n| > |h| then None
    else if h[i..i + |n|] == n then Some(i)
    else FindFrom(h, n, i + 1)
  }

  /** The source's window search: nothing is found for an empty needle. */
  function FindSubslice(h: bytes, n: bytes): (r: Option<nat>)
    ensures r.Some? ==> MatchAt(h, n, r.value)
  {
    if |n| == 0 || |h| < |n| then None else FindFrom(h, n, 0)
  }

  /** The match found is the first one, and none is missed. */
  lemma {:induction false} FindFromFirst(h: bytes, n: bytes, i: nat)
    requires |n| > 0 && i <= |h|
    ensures forall j: nat :: i <= j && (FindFrom(h, n, i).None? || j < FindFrom(h, n, i).value) ==> !MatchAt(h, n, j)
    decreases |h| - i
  {
    if i + |n| <= |h| && h[i..i + |n|] != n {
      FindFromFirst(h, n, i + 1);
    }
  }

  /** A first match is what the search returns. */
  lemma FindFromIs(h: bytes, n: bytes, i: nat, k: nat)
    requires |n| > 0 && i <= k && MatchAt(h, n, k)
    requires forall j: nat :: i <= j < k ==> !MatchAt(h, n, j)
    ensures FindFrom(h, n, i) == Some(k)
  {
    FindFromFirst(h, n, i);
  }

  /** Searching a suffix is searching from its start. */
  lemma FindInSuffix(h: bytes, n: bytes, i: nat)
    requires |n| > 0 && i <= |h|
    ensures FindSubslice(h[i..], n) == match FindFrom(h, n, i) case None => None case Some(k) => Some(k - i)
  {
    FindFromFirst(h, n, i);
    forall j: nat ensures MatchAt(h[i..], n, j) <==> MatchAt(h, n, i + j) {
      if i + j + |n| <= |h| {
        assert h[i..][j..j + |n|] == h[i + j..i + j + |n|];
      }
    }
    match FindFrom(h, n, i)
    case None =>
      forall j: nat ensures !MatchAt(h[i..], n, j) {
        assert !MatchAt(h, n, i + j);
      }
    case Some(k) =>
      assert MatchAt(h, n, i + (k - i));
      forall j: nat | j < k - i ensures !MatchAt(h[i..], n, j) {
        assert !MatchAt(h, n, i + j);
      }
      FindFromIs(h[i..], n, 0, k - i);
  }

  /** A match lies within every prefix that reaches its end, and only there. */
  lemma MatchInPrefix(h: bytes, m: nat, n: bytes, i: nat)
    requires m <= |h|
    ensures MatchAt(h[..m], n, i) <==> i + |n| <= m && MatchAt(h, n, i)
  {
    if i + |n| <= m {
      assert h[..m][i..i + |n|] == h[i..i + |n|];
    }
  }

  /** The search of a prefix agrees with the search of the whole, up to its end. */
  lemma FindInPrefix(h: bytes, m: nat, n: bytes, i: nat)
    requires |n| > 0 && i <= m <= |h|
    ensures FindFrom(h[..m], n, i) ==
            match FindFrom(h, n, i)
            case None => None
            case Some(k) => if k + |n| <= m then Some(k) else None
  {
    FindFromFirst(h, n, i);
    forall j: nat ensures MatchAt(h[..m], n, j) <==> j + |n| <= m && MatchAt(h, n, j) {
      MatchInPrefix(h, m, n, j);
    }
    match FindFrom(h, n, i)
    case None =>
    case Some(k) =>
      if k + |n| <= m {
        FindFromIs(h[..m], n, i, k);
      }
  }

  lemma MatchFits(h: bytes, n: bytes, i: nat)
    requires MatchAt(h, n, i)
    ensures i + |n| <= |h|
  {
  }

  /** Concatenated text matches when its parts do, one after the other. */
  lemma MatchConcat(h: bytes, a: bytes, b: bytes, i: nat)
    ensures MatchAt(h, a + b, i) <==> MatchAt(h, a, i) && MatchAt(h, b, i + |a|)
  {
    if i + |a + b| <= |h| {
      var s := h[i..i + |a + b|];
      assert s[..|a|] == h[i..i + |a|] && s[|a|..] == h[i + |a|..i + |a| + |b|];
      assert (a + b)[..|a|] == a && (a + b)[|a|..] == b;
      assert s == s[..|a|] + s[|a|..];
    }
  }

  /** A CRLF match, byte by byte. */
  lemma CrlfAt(h: bytes, i: nat)
    ensures MatchAt(h, CRLF, i) <==> i + 1 < |h| && h[i] == '\r' && h[i + 1] == '\n'
  {
    if i + 2 <= |h| {
      assert h[i..i + 2] == [h[i], h[i + 1]];
    }
  }

  /** A blank-line match is two adjacent CRLF matches. */
  lemma BlankAt(h: bytes, i: nat)
    ensures MatchAt(h, BLANK, i) <==> MatchAt(h, CRLF, i) && MatchAt(h, CRLF, i + 2)
  {
    CrlfAt(h, i);
    CrlfAt(h, i + 2);
    if i + 4 <= |h| {
      assert h[i..i + 4] == [h[i], h[i + 1], h[i + 2], h[i + 3]];
    }
  }

  // ----- first occurrence of a byte -----

  /** Position of the first `c`. */
  function IndexOf(s: bytes, c: byte): (r: Option<nat>)
    ensures r.Some? ==> r.value < |s| && s[r.value] == c && c !in s[..r.value]
    ensures r.None? ==> c !in s
  {
    if s == [] then None
    else if s[0] == c then Some(0)
    else match IndexOf(s[1..], c)
         case None => None
         case Some(k) => assert s[..k + 1] == [s[0]] + s[1..][..k]; Some(k + 1)
  }

  lemma {:induction false} IndexOfIs(s: bytes, c: byte, k: nat)
    requires k < |s| && s[k] == c && c !in s[..k]
    ensures IndexOf(s, c) == Some(k)
  {
    if k > 0 {
      assert s[0] == s[..k][0] && s[1..][..k - 1] == s[..k][1..];
      IndexOfIs(s[1..], c, k - 1);
    }
  }

  /** The parts of a string between occurrences of a byte. */
  function SplitOn(s: bytes, c: byte): (parts: seq<bytes>)
    ensures |parts| > 0
  {
    match IndexOf(s, c)
    case None => [s]
    case Some(i) => [s[..i]] + SplitOn(s[i + 1..], c)
  }

  lemma SplitOnFirst(part: bytes, c: byte, rest: bytes)
    requires c !in part
    ensures SplitOn(part, c) == [part]
    ensures SplitOn(part + [c] + rest, c) == [part] + SplitOn(rest, c)
  {
    var s := part + [c] + rest;
    assert s[..|part|] == part && s[|part| + 1..] == rest;
    IndexOfIs(s, c, |part|);
  }

  /** The first part of a split, and where the others come from. */
  lemma SplitOnParts(s: bytes, c: byte)
    ensures var parts := SplitOn(s, c);
            && c !in parts[0]
            && (|parts| == 1 ==> s == parts[0])
            && (|parts| > 1 ==>
                  |parts[0]| < |s| && s == parts[0] + [c] + s[|parts[0]| + 1..]
                  && SplitOn(s[|parts[0]| + 1..], c) == parts[1..])
  {
  }

  // ----- lines -----

  ghost predicate CrlfFree(s: bytes) {
    forall i: nat :: !MatchAt(s, CRLF, i)
  }

  /** The lines of a block: split at every CRLF, the last line unterminated. */
  function SplitFrom(block: bytes, pos: nat): (lines: seq<bytes>)
    requires pos <= |block|
    ensures |lines| > 0
    decreases |block| - pos
  {
    match FindFrom(block, CRLF, pos)
    case None => [block[pos..]]
    case Some(k) => [block[pos..k]] + SplitFrom(block, k + 2)
  }

  function SplitCrlf(block: bytes): seq<bytes> {
    SplitFrom(block, 0)
  }

  /** The block that has the given lines. */
  function JoinCrlf(lines: seq<bytes>): bytes
    requires |lines| > 0
  {
    if |lines| == 1 then lines[0] else lines[0] + CRLF + JoinCrlf(lines[1..])
  }

  /** In a line followed by CRLF, the first CRLF is the one that ends it. */
  lemma LineEnd(h: bytes, pos: nat, line: bytes)
    requires CrlfFree(line) && pos <= |h|
    requires MatchAt(h, line, pos) && MatchAt(h, CRLF, pos + |line|)
    ensures FindFrom(h, CRLF, pos) == Some(pos + |line|)
  {
    var k := pos + |line|;
    CrlfAt(h, k);
    forall j: nat | pos <= j < k ensures !MatchAt(h, CRLF, j) {
      CrlfAt(h, j);
      CrlfAt(line, j - pos);
      assert h[j] == line[j - pos];
      if j + 1 < k { assert h[j + 1] == line[j - pos + 1]; }
    }
    FindFromIs(h, CRLF, pos, k);
  }

  /** A line read up to the first CRLF contains none. */
  lemma LineIsFree(h: bytes, pos: nat, k: nat)
    requires pos <= |h| && FindFrom(h, CRLF, pos) == Some(k)
    ensures CrlfFree(h[pos..k])
  {
    FindFromFirst(h, CRLF, pos);
    forall j: nat ensures !MatchAt(h[pos..k], CRLF, j) {
      CrlfAt(h[pos..k], j);
      CrlfAt(h, pos + j);
    }
  }

  lemma SuffixIsFree(s: bytes, i: nat)
    requires CrlfFree(s) && i <= |s|
    ensures CrlfFree(s[i..])
  {
    forall j: nat ensures !MatchAt(s[i..], CRLF, j) {
      CrlfAt(s[i..], j);
      CrlfAt(s, i + j);
    }
  }

  /** Lines are CRLF-free and join back to the block. */
  lemma {:induction false} SplitLines(block: bytes, pos: nat)
    requires pos <= |block|
    ensures JoinCrlf(SplitFrom(block, pos)) == block[pos..]
    ensures forall l :: l in SplitFrom(block, pos) ==> CrlfFree(l)
    decreases |block| - pos
  {
    hide FindFrom;
    match FindFrom(block, CRLF, pos)
    case None =>
      FindFromFirst(block, CRLF, pos);
      forall j: nat ensures !MatchAt(block[pos..], CRLF, j) {
        CrlfAt(block[pos..], j);
        CrlfAt(block, pos + j);
      }
    case Some(k) =>
      SplitLines(block, k + 2);
      LineIsFree(block, pos, k);
      assert block[pos..] == block[pos..k] + block[k..k + 2] + block[k + 2..];
  }

  /** Joining CRLF-free lines and splitting gives the lines back. */
  lemma {:induction false} SplitJoin(block: bytes, pos: nat, lines: seq<bytes>)
    requires |lines| > 0 && pos <= |block|
    requires MatchAt(block, JoinCrlf(lines), pos) && pos + |JoinCrlf(lines)| == |block|
    requires forall l :: l in lines ==> CrlfFree(l)
    ensures SplitFrom(block, pos) == lines
    decreases |lines|
  {
    hide FindFrom;
    var l := lines[0];
    if |lines| == 1 {
      NoCrlfInLine(block, pos, l);
      assert block[pos..] == l;
    } else {
      MatchConcat(block, l + CRLF, JoinCrlf(lines[1..]), pos);
      MatchConcat(block, l, CRLF, pos);
      LineEnd(block, pos, l);
      SplitJoin(block, pos + |l| + 2, lines[1..]);
      assert lines == [block[pos..pos + |l|]] + lines[1..];
    }
  }

  lemma NoCrlfInLine(block: bytes, pos: nat, line: bytes)
    requires CrlfFree(line) && MatchAt(block, line, pos) && pos + |line| == |block|
    ensures FindFrom(block, CRLF, pos) == None
  {
    forall j: nat | pos <= j ensures !MatchAt(block, CRLF, j) {
      CrlfAt(block, j);
      CrlfAt(line, j - pos);
      if j < |block| { assert block[j] == line[j - pos]; }
      if j + 1 < |block| { assert block[j + 1] == line[j - pos + 1]; }
    }
  }

  /** Where non-empty lines follow each other and a blank line ends them, that
      blank line is the first. */
  lemma {:induction false} FirstBlank(h: bytes, pos: nat, lines: seq<bytes>)
    requires |lines| > 0 && forall l :: l in lines ==> CrlfFree(l)
    requires forall k :: 1 <= k < |lines| ==> lines[k] != []
    requires pos <= |h| && MatchAt(h, JoinCrlf(lines), pos) && MatchAt(h, BLANK, pos + |JoinCrlf(lines)|)
    ensures FindFrom(h, BLANK, pos) == Some(pos + |JoinCrlf(lines)|)
    decreases |lines|
  {
    hide FindFrom;
    var l := lines[0];
    var end := pos + |l|;
    if |lines| == 1 {
      BlankAt(h, end);
      LineEnd(h, pos, l);
      NoBlankBefore(h, pos, end);
      FindFromIs(h, BLANK, pos, end);
    } else {
      var rest := JoinCrlf(lines[1..]);
      MatchConcat(h, l + CRLF, rest, pos);
      MatchConcat(h, l, CRLF, pos);
      LineEnd(h, pos, l);
      NoCrlfAtNonEmpty(h, end + 2, lines[1..]);
      FirstBlank(h, end + 2, lines[1..]);
      BlankAfterLine(h, pos, end);
    }
  }

  /** A blank line found after a line that is not followed by one is the first. */
  lemma BlankAfterLine(h: bytes, pos: nat, end: nat)
    requires pos <= |h| && FindFrom(h, CRLF, pos) == Some(end) && !MatchAt(h, CRLF, end + 2)
    requires FindFrom(h, BLANK, end + 2).Some?
    ensures FindFrom(h, BLANK, pos) == FindFrom(h, BLANK, end + 2)
  {
    FindFromFirst(h, BLANK, end + 2);
    NoBlankBefore(h, pos, end);
    BlankAt(h, end);
    BlankAt(h, end + 1);
    CrlfAt(h, end);
    CrlfAt(h, end + 1);
    FindFromIs(h, BLANK, pos, FindFrom(h, BLANK, end + 2).value);
  }

  lemma NoBlankBefore(h: bytes, pos: nat, end: nat)
    requires pos <= |h| && FindFrom(h, CRLF, pos) == Some(end)
    ensures forall j: nat :: pos <= j < end ==> !MatchAt(h, BLANK, j)
  {
    FindFromFirst(h, CRLF, pos);
    forall j: nat | pos <= j < end ensures !MatchAt(h, BLANK, j) {
      BlankAt(h, j);
    }
  }

  lemma NoCrlfAtNonEmpty(h: bytes, pos: nat, lines: seq<bytes>)
    requires |lines| > 0 && CrlfFree(lines[0]) && lines[0] != []
    requires MatchAt(h, JoinCrlf(lines), pos) && MatchAt(h, BLANK, pos + |JoinCrlf(lines)|)
    ensures !MatchAt(h, CRLF, pos)
  {
    var l := lines[0];
    if |lines| > 1 {
      MatchConcat(h, l + CRLF, JoinCrlf(lines[1..]), pos);
      MatchConcat(h, l, CRLF, pos);
    } else {
      BlankAt(h, pos + |l|);
    }
    LineEnd(h, pos, l);
  }

  /** Before the first blank line, only the first line can be empty. */
  lemma {:induction false} OnlyFirstLineEmpty(h: bytes, pos: nat, end: nat)
    requires pos <= end <= |h| && FindFrom(h, BLANK, pos) == Some(end)
    ensures forall k :: 1 <= k < |SplitFrom(h[..end], pos)| ==> SplitFrom(h[..end], pos)[k] != []
    decreases end - pos
  {
    hide FindFrom;
    match FindFrom(h[..end], CRLF, pos)
    case None =>
    case Some(k) =>
      LineBeforeBlank(h, pos, end, k);
      OnlyFirstLineEmpty(h, k + 2, end);
  }

  lemma LineBeforeBlank(h: bytes, pos: nat, end: nat, k: nat)
    requires pos <= end <= |h| && FindFrom(h, BLANK, pos) == Some(end)
    requires FindFrom(h[..end], CRLF, pos) == Some(k)
    ensures k + 2 < end && FindFrom(h, BLANK, k + 2) == Some(end)
    ensures SplitFrom(h[..end], k + 2)[0] != []
  {
    FindFromFirst(h, BLANK, pos);
    var next := k + 2;
    FindInPrefix(h, end, CRLF, pos);
    BlankAt(h, k);
    BlankAt(h, end);
    assert !MatchAt(h, CRLF, next);
    FindFromIs(h, BLANK, next, end);
    MatchInPrefix(h, end, CRLF, next);
  }
}
