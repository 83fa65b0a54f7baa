/** The converse of reading: whatever the parser accepts is the text of a document,
    so the accepted texts are exactly the renderings within the depth limit. */
module JsonGrammar {
  import opened Bytes
  import opened Json
  import opened JsonNumerals
  import opened JsonStrings
  import opened JsonText

  lemma Join(s: bytes, a: nat, b: nat, c: nat)
    requires a <= b <= c <= |s|
    ensures s[a..c] == s[a..b] + s[b..c]
  {
  }

  /** The skipped bytes are whitespace. */
  lemma {:induction false} GapIsSpace(s: bytes, p: nat)
    requires p <= |s|
    ensures AllSpace(s[p..SkipWs(s, p)])
    decreases |s| - p
  {
    if p < |s| && IsSpace(s[p]) {
      GapIsSpace(s, p + 1);
      var q := SkipWs(s, p);
      assert s[p..q] == [s[p]] + s[p + 1..q];
    }
  }

  /** A document stands between two places of a text, nested within the limit. */
  predicate Stands(s: bytes, p: nat, q: nat, d: Doc, v: JsonValue, depth: nat) {
    p <= q <= |s| && WellFormed(d) && s[p..q] == Text(d) && ValueOf(d) == v && depth + Depth(d) <= MAX_DEPTH
  }

  /** Likewise for the items of an array, up to its bracket. */
  predicate ItemsStand(s: bytes, p: nat, q: nat, items: Items, values: seq<JsonValue>, depth: nat) {
    p <= q <= |s| && items.Item? && WellFormedItems(items) && s[p..q] == items.before + ItemsText(items)
    && ItemValues(items) == values && depth + ItemsDepth(items) <= MAX_DEPTH
  }

  predicate MembersStand(s: bytes, p: nat, q: nat, m: Members, values: seq<(bytes, JsonValue)>, depth: nat) {
    p <= q <= |s| && m.Member? && WellFormedMembers(m) && s[p..q] == m.before + MembersText(m)
    && MemberValues(m) == values && depth + MembersDepth(m) <= MAX_DEPTH
  }

  // ----- arrays -----

  lemma LastItem(items: Items)
    requires items.Item? && items.more == NoItems
    requires AllSpace(items.before) && AllSpace(items.after) && WellFormed(items.doc)
    ensures WellFormedItems(items) && ItemsText(items) == Text(items.doc) + (items.after + "]")
    ensures ItemValues(items) == [ValueOf(items.doc)] && ItemsDepth(items) == Depth(items.doc)
  {
    hide Text; hide WellFormed; hide ValueOf; hide Depth; hide AllSpace;
    assert WellFormedItems(NoItems) && ItemValues(NoItems) == [] && ItemsDepth(NoItems) == 0;
    assert ItemValues(items) == [ValueOf(items.doc)] + ItemValues(NoItems);
  }

  lemma OneItem(s: bytes, p: nat, a: nat, b: nat, c: nat, d: Doc, v: JsonValue, depth: nat) returns (items: Items)
    requires p <= a <= b <= c < |s| && AllSpace(s[p..a]) && AllSpace(s[b..c]) && s[c] == ']'
    requires Stands(s, a, b, d, v, depth)
    ensures ItemsStand(s, p, c + 1, items, [v], depth)
  {
    hide Text; hide WellFormed; hide ValueOf; hide Depth; hide AllSpace; hide ItemsText; hide WellFormedItems;
    hide ItemValues; hide ItemsDepth;
    items := Item(s[p..a], d, s[b..c], NoItems);
    Join(s, p, a, c + 1);
    Join(s, a, b, c + 1);
    Join(s, b, c, c + 1);
    assert s[c..c + 1] == "]";
    LastItem(items);
  }

  lemma MoreItems(
    s: bytes, p: nat, a: nat, b: nat, c: nat, q: nat, d: Doc, v: JsonValue, more: Items,
    values: seq<JsonValue>, depth: nat)
    returns (items: Items)
    requires p <= a <= b <= c < q <= |s| && AllSpace(s[p..a]) && AllSpace(s[b..c]) && s[c] == ','
    requires Stands(s, a, b, d, v, depth) && ItemsStand(s, c + 1, q, more, values, depth)
    ensures ItemsStand(s, p, q, items, [v] + values, depth)
  {
    hide Text; hide WellFormed; hide ValueOf; hide Depth; hide AllSpace;
    items := Item(s[p..a], d, s[b..c], more);
    assert s[p..q] == s[p..a] + (s[a..b] + (s[b..c] + ([s[c]] + s[c + 1..q])));
  }

  lemma ArrayStands(s: bytes, p: nat, a: nat, q: nat, inner: Items, values: seq<JsonValue>, depth: nat) returns (d: Doc)
    requires p < a <= q <= |s| && s[p] == '[' && AllSpace(s[p + 1..a]) && ItemsStand(s, a, q, inner, values, depth + 1)
    ensures Stands(s, p, q, d, Array(values), depth)
  {
    hide Text; hide WellFormed; hide ValueOf; hide Depth; hide ItemsText; hide WellFormedItems; hide ItemValues;
    hide ItemsDepth;
    var items := inner.(before := s[p + 1..a] + inner.before);
    d := ArrayDoc([], items);
    OtherGap(inner, s[p + 1..a]);
    ArrayIs(d);
    assert s[p..q] == [s[p]] + (s[p + 1..a] + s[a..q]);
    assert s[p + 1..a] + (inner.before + ItemsText(inner)) == items.before + ItemsText(items);
  }

  /** Whitespace in front of the first item changes nothing else. */
  lemma OtherGap(items: Items, gap: bytes)
    requires items.Item? && WellFormedItems(items) && AllSpace(gap)
    ensures var more := items.(before := gap + items.before);
            && WellFormedItems(more) && ItemsText(more) == ItemsText(items)
            && ItemValues(more) == ItemValues(items) && ItemsDepth(more) == ItemsDepth(items)
  {
    hide Text; hide WellFormed; hide ValueOf; hide Depth;
  }

  lemma ArrayIs(d: Doc)
    requires d.ArrayDoc? && d.items.Item? && d.blank == [] && WellFormedItems(d.items)
    ensures WellFormed(d) && Text(d) == "[" + (d.items.before + ItemsText(d.items))
    ensures ValueOf(d) == Array(ItemValues(d.items)) && Depth(d) == 1 + ItemsDepth(d.items)
  {
    hide ItemsText; hide WellFormedItems; hide ItemValues; hide ItemsDepth;
  }

  lemma EmptyArrayStands(s: bytes, p: nat, a: nat, depth: nat) returns (d: Doc)
    requires p < a < |s| && s[p] == '[' && s[a] == ']' && AllSpace(s[p + 1..a]) && depth + 1 <= MAX_DEPTH
    ensures Stands(s, p, a + 1, d, Array([]), depth)
  {
    d := ArrayDoc(s[p + 1..a], NoItems);
    assert s[p..a + 1] == [s[p]] + (s[p + 1..a] + [s[a]]);
  }

  // ----- objects -----

  /** Where the parts of a member begin and end. */
  datatype Places = Places(key: nat, keyEnd: nat, colon: nat, value: nat, valueEnd: nat, end: nat)

  predicate MemberStands(s: bytes, p: nat, at: Places, key: Spelling, d: Doc, member: (bytes, JsonValue), depth: nat) {
    && p <= at.key <= at.keyEnd <= at.colon < at.value <= at.valueEnd <= at.end <= |s|
    && AllSpace(s[p..at.key]) && AllSpace(s[at.keyEnd..at.colon]) && AllSpace(s[at.colon + 1..at.value])
    && AllSpace(s[at.valueEnd..at.end]) && s[at.colon] == ':'
    && IsSpelling(key) && s[at.key..at.keyEnd] == Spelled(key) && member.0 == MeaningOf(key)
    && Stands(s, at.value, at.valueEnd, d, member.1, depth)
  }

  /** The member's text, and its closing brace or the comma and what follows it. */
  lemma MemberPieces(s: bytes, p: nat, at: Places, q: nat)
    requires p <= at.key <= at.keyEnd <= at.colon < at.value <= at.valueEnd <= at.end < q <= |s|
    ensures s[p..q] == s[p..at.key] + (s[at.key..at.keyEnd] + (s[at.keyEnd..at.colon] + ([s[at.colon]] +
            (s[at.colon + 1..at.value] + (s[at.value..at.valueEnd] + (s[at.valueEnd..at.end] + s[at.end..q]))))))
  {
    Join(s, p, at.key, q);
    Join(s, at.key, at.keyEnd, q);
    Join(s, at.keyEnd, at.colon, q);
    Join(s, at.colon, at.colon + 1, q);
    Join(s, at.colon + 1, at.value, q);
    Join(s, at.value, at.valueEnd, q);
    Join(s, at.valueEnd, at.end, q);
    assert s[at.colon..at.colon + 1] == [s[at.colon]];
  }

  lemma LastMember(m: Members)
    requires m.Member? && m.more == NoMembers
    requires AllSpace(m.before) && AllSpace(m.afterKey) && AllSpace(m.beforeValue) && AllSpace(m.after)
    requires IsSpelling(m.key) && WellFormed(m.doc)
    ensures WellFormedMembers(m) && MembersDepth(m) == Depth(m.doc)
    ensures MemberValues(m) == [(MeaningOf(m.key), ValueOf(m.doc))]
  {
    hide Text; hide WellFormed; hide ValueOf; hide Depth; hide AllSpace; hide IsSpelling; hide MeaningOf;
    assert WellFormedMembers(NoMembers) && MemberValues(NoMembers) == [] && MembersDepth(NoMembers) == 0;
    assert MemberValues(m) == [(MeaningOf(m.key), ValueOf(m.doc))] + MemberValues(NoMembers);
  }

  lemma OneMember(s: bytes, p: nat, at: Places, key: Spelling, d: Doc, member: (bytes, JsonValue), depth: nat)
    returns (m: Members)
    requires MemberStands(s, p, at, key, d, member, depth) && at.end < |s| && s[at.end] == '}'
    ensures MembersStand(s, p, at.end + 1, m, [member], depth)
  {
    hide Text; hide WellFormed; hide ValueOf; hide Depth; hide AllSpace; hide IsSpelling; hide Spelled; hide MeaningOf;
    hide MembersText; hide WellFormedMembers; hide MemberValues; hide MembersDepth;
    m := Member(s[p..at.key], key, s[at.keyEnd..at.colon], s[at.colon + 1..at.value], d, s[at.valueEnd..at.end],
        NoMembers);
    MemberPieces(s, p, at, at.end + 1);
    assert s[at.end..at.end + 1] == "}";
    MembersTextIs(m);
    LastMember(m);
  }

  lemma MoreMembers(
    s: bytes, p: nat, at: Places, q: nat, key: Spelling, d: Doc, member: (bytes, JsonValue), more: Members,
    values: seq<(bytes, JsonValue)>, depth: nat)
    returns (m: Members)
    requires MemberStands(s, p, at, key, d, member, depth) && at.end < q <= |s| && s[at.end] == ','
    requires MembersStand(s, at.end + 1, q, more, values, depth)
    ensures MembersStand(s, p, q, m, [member] + values, depth)
  {
    hide Text; hide WellFormed; hide ValueOf; hide Depth; hide AllSpace; hide IsSpelling; hide Spelled; hide MeaningOf;
    hide MembersText;
    m := Member(s[p..at.key], key, s[at.keyEnd..at.colon], s[at.colon + 1..at.value], d, s[at.valueEnd..at.end], more);
    MemberPieces(s, p, at, q);
    assert s[at.end..q] == "," + s[at.end + 1..q];
    MembersTextIs(m);
  }

  lemma ObjectStands(s: bytes, p: nat, a: nat, q: nat, inner: Members, values: seq<(bytes, JsonValue)>, depth: nat)
    returns (d: Doc)
    requires p < a <= q <= |s| && s[p] == '{' && AllSpace(s[p + 1..a])
             && MembersStand(s, a, q, inner, values, depth + 1)
    ensures Stands(s, p, q, d, Object(values), depth)
  {
    hide Text; hide WellFormed; hide ValueOf; hide Depth; hide MembersText; hide WellFormedMembers; hide MemberValues;
    hide MembersDepth;
    var members := inner.(before := s[p + 1..a] + inner.before);
    d := ObjectDoc([], members);
    OtherIndent(inner, s[p + 1..a]);
    ObjectIs(d);
    assert s[p..q] == [s[p]] + (s[p + 1..a] + s[a..q]);
    assert s[p + 1..a] + (inner.before + MembersText(inner)) == members.before + MembersText(members);
  }

  /** Whitespace in front of the first member changes nothing else. */
  lemma OtherIndent(m: Members, gap: bytes)
    requires m.Member? && WellFormedMembers(m) && AllSpace(gap)
    ensures var more := m.(before := gap + m.before);
            && WellFormedMembers(more) && MembersText(more) == MembersText(m)
            && MemberValues(more) == MemberValues(m) && MembersDepth(more) == MembersDepth(m)
  {
    hide Text; hide WellFormed; hide ValueOf; hide Depth; hide IsSpelling; hide Spelled; hide MeaningOf;
  }

  lemma ObjectIs(d: Doc)
    requires d.ObjectDoc? && d.members.Member? && d.blank == [] && WellFormedMembers(d.members)
    ensures WellFormed(d) && Text(d) == "{" + (d.members.before + MembersText(d.members))
    ensures ValueOf(d) == Object(MemberValues(d.members)) && Depth(d) == 1 + MembersDepth(d.members)
  {
    hide MembersText; hide WellFormedMembers; hide MemberValues; hide MembersDepth;
  }

  lemma EmptyObjectStands(s: bytes, p: nat, a: nat, depth: nat) returns (d: Doc)
    requires p < a < |s| && s[p] == '{' && s[a] == '}' && AllSpace(s[p + 1..a]) && depth + 1 <= MAX_DEPTH
    ensures Stands(s, p, a + 1, d, Object([]), depth)
  {
    d := ObjectDoc(s[p + 1..a], NoMembers);
    assert s[p..a + 1] == [s[p]] + (s[p + 1..a] + [s[a]]);
  }

  // ----- whatever parses -----

  lemma WordParses(s: bytes, p: nat, word: bytes, d: Doc, v: JsonValue, depth: nat)
    requires MatchAt(s, word, p) && Text(d) == word && ValueOf(d) == v && (d.NullDoc? || d.BoolDoc?)
             && depth <= MAX_DEPTH
    ensures Stands(s, p, p + |word|, d, v, depth)
  {
  }

  lemma StringStands(s: bytes, p: nat, depth: nat) returns (d: Doc)
    requires p <= |s| && StringAt(s, p).Ok? && depth <= MAX_DEPTH
    ensures var (v, q) := StringAt(s, p).value; Stands(s, p, q, d, String(v), depth)
  {
    hide StringAt; hide Spelled; hide IsSpelling; hide MeaningOf;
    var pieces := SpellingParses(s, p);
    d := StringDoc(pieces);
  }

  lemma NumberStands(s: bytes, p: nat, depth: nat) returns (d: Doc)
    requires p <= |s| && NumberAt(s, p).Ok? && depth <= MAX_DEPTH
    ensures var (v, q) := NumberAt(s, p).value; Stands(s, p, q, d, v, depth)
  {
    hide NumberAt; hide NumeralText; hide IsNumeral;
    var n := NumeralParses(s, p);
    d := NumberDoc(n);
  }

  /** A value that is read is a document written there. */
  lemma {:induction false} ValueParses(s: bytes, p: nat, depth: nat) returns (d: Doc)
    requires p <= |s| && ValueAt(s, p, depth).Ok? && depth <= MAX_DEPTH
    ensures var (v, q) := ValueAt(s, p, depth).value; Stands(s, p, q, d, v, depth)
    decreases |s| - p, 2
  {
    hide ObjectAt; hide ArrayAt; hide StringAt; hide NumberAt; hide Stands; hide MatchAt;
    var c := s[p];
    if c == '{' {
      d := ObjectParses(s, p, depth);
    } else if c == '[' {
      d := ArrayParses(s, p, depth);
    } else if c == '"' {
      d := StringStands(s, p, depth);
    } else if c == 't' || c == 'f' {
      d := BoolDoc(MatchAt(s, "true", p));
      WordParses(s, p, if d.b then "true" else "false", d, Bool(d.b), depth);
    } else if c == 'n' {
      d := NullDoc;
      WordParses(s, p, "null", d, Null, depth);
    } else {
      d := NumberStands(s, p, depth);
    }
  }

  lemma {:induction false} ArrayParses(s: bytes, p: nat, depth: nat) returns (d: Doc)
    requires p <= |s| && ArrayAt(s, p, depth).Ok? && depth <= MAX_DEPTH
    ensures var (v, q) := ArrayAt(s, p, depth).value; Stands(s, p, q, d, v, depth)
    decreases |s| - p, 1
  {
    hide SkipWs; hide ItemsFrom; hide Stands; hide ItemsStand; hide AllSpace;
    var a := SkipWs(s, p + 1);
    GapIsSpace(s, p + 1);
    if At(s, a, ']') {
      d := EmptyArrayStands(s, p, a, depth);
    } else {
      var items, values := ItemsParse(s, a, depth, []);
      assert [] + values == values;
      d := ArrayStands(s, p, a, ArrayAt(s, p, depth).value.1, items, values, depth);
    }
  }

  lemma {:induction false} ItemsParse(s: bytes, p: nat, depth: nat, acc: seq<JsonValue>)
    returns (items: Items, values: seq<JsonValue>)
    requires p <= |s| && ItemsFrom(s, p, depth, acc).Ok? && depth + 1 <= MAX_DEPTH
    ensures var (v, q) := ItemsFrom(s, p, depth, acc).value;
            v == Array(acc + values) && ItemsStand(s, p, q, items, values, depth + 1)
    decreases |s| - p, 4
  {
    hide SkipWs; hide ValueAt; hide Stands; hide ItemsStand; hide AllSpace;
    var a := SkipWs(s, p);
    GapIsSpace(s, p);
    var (v, b) := ValueAt(s, a, depth + 1).value;
    var d := ValueParses(s, a, depth + 1);
    var c := SkipWs(s, b);
    GapIsSpace(s, b);
    if At(s, c, ',') {
      var more, rest := ItemsParse(s, c + 1, depth, acc + [v]);
      values := [v] + rest;
      assert acc + [v] + rest == acc + values;
      items := MoreItems(s, p, a, b, c, ItemsFrom(s, p, depth, acc).value.1, d, v, more, rest, depth + 1);
    } else {
      values := [v];
      items := OneItem(s, p, a, b, c, d, v, depth + 1);
    }
  }

  lemma {:induction false} ObjectParses(s: bytes, p: nat, depth: nat) returns (d: Doc)
    requires p <= |s| && ObjectAt(s, p, depth).Ok? && depth <= MAX_DEPTH
    ensures var (v, q) := ObjectAt(s, p, depth).value; Stands(s, p, q, d, v, depth)
    decreases |s| - p, 1
  {
    hide SkipWs; hide MembersFrom; hide Stands; hide MembersStand; hide AllSpace;
    var a := SkipWs(s, p + 1);
    GapIsSpace(s, p + 1);
    if At(s, a, '}') {
      d := EmptyObjectStands(s, p, a, depth);
    } else {
      var members, values := MembersParse(s, a, depth, []);
      assert [] + values == values;
      d := ObjectStands(s, p, a, ObjectAt(s, p, depth).value.1, members, values, depth);
    }
  }

  lemma {:induction false} MemberParses(s: bytes, p: nat, depth: nat) returns (at: Places, key: Spelling, d: Doc)
    requires p <= |s| && MemberAt(s, p, depth).Ok? && depth <= MAX_DEPTH
    ensures var (member, q) := MemberAt(s, p, depth).value;
            MemberStands(s, p, at, key, d, member, depth) && at.end == q
    decreases |s| - p, 3
  {
    hide SkipWs; hide ValueAt; hide StringAt; hide Stands; hide AllSpace; hide IsSpelling; hide Spelled; hide MeaningOf;
    var k := SkipWs(s, p);
    GapIsSpace(s, p);
    key := SpellingParses(s, k);
    var kEnd := StringAt(s, k).value.1;
    var colon := SkipWs(s, kEnd);
    GapIsSpace(s, kEnd);
    var value := SkipWs(s, colon + 1);
    GapIsSpace(s, colon + 1);
    d := ValueParses(s, value, depth);
    var valueEnd := ValueAt(s, value, depth).value.1;
    GapIsSpace(s, valueEnd);
    at := Places(k, kEnd, colon, value, valueEnd, SkipWs(s, valueEnd));
  }

  lemma {:induction false} MembersParse(s: bytes, p: nat, depth: nat, acc: seq<(bytes, JsonValue)>)
    returns (m: Members, values: seq<(bytes, JsonValue)>)
    requires p <= |s| && MembersFrom(s, p, depth, acc).Ok? && depth + 1 <= MAX_DEPTH
    ensures var (v, q) := MembersFrom(s, p, depth, acc).value;
            v == Object(acc + values) && MembersStand(s, p, q, m, values, depth + 1)
    decreases |s| - p, 4
  {
    hide MemberAt; hide MemberStands; hide MembersStand;
    var (member, c) := MemberAt(s, p, depth + 1).value;
    var at, key, d := MemberParses(s, p, depth + 1);
    if At(s, c, ',') {
      var more, rest := MembersParse(s, c + 1, depth, acc + [member]);
      values := [member] + rest;
      assert acc + [member] + rest == acc + values;
      m := MoreMembers(s, p, at, MembersFrom(s, p, depth, acc).value.1, key, d, member, more, rest, depth + 1);
    } else {
      values := [member];
      m := OneMember(s, p, at, key, d, member, depth + 1);
    }
  }

  // ----- documents -----

  /** A text renders a value: a document of that value between whitespace, nested
      within the limit. */
  ghost predicate Renders(s: bytes, before: bytes, d: Doc, after: bytes, v: JsonValue) {
    && s == before + Text(d) + after
    && AllSpace(before) && AllSpace(after) && WellFormed(d) && ValueOf(d) == v && Depth(d) <= 64
  }

  /** Whatever the parser accepts is a rendering of the value that it returns. */
  lemma DocumentParses(s: bytes) returns (before: bytes, d: Doc, after: bytes)
    requires ParseDocument(s).Ok?
    ensures Renders(s, before, d, after, ParseDocument(s).value)
  {
    hide SkipWs; hide ValueAt; hide AllSpace; hide Text; hide WellFormed; hide ValueOf; hide Depth;
    var p := SkipWs(s, 0);
    GapIsSpace(s, 0);
    d := ValueParses(s, p, 0);
    var q := ValueAt(s, p, 0).value.1;
    GapIsSpace(s, q);
    before, after := s[..p], s[q..];
    assert s[0..p] == before && s[q..|s|] == after;
    assert s == before + s[p..q] + after;
  }

  /** The parser returns a value exactly for the renderings of that value. */
  lemma ParsesExactlyRenderings(s: bytes, v: JsonValue)
    ensures ParseDocument(s) == Ok(v) <==> exists before, d, after :: Renders(s, before, d, after, v)
  {
    hide ParseDocument; hide Text; hide WellFormed; hide ValueOf; hide Depth; hide AllSpace;
    if ParseDocument(s) == Ok(v) {
      var before, d, after := DocumentParses(s);
      assert Renders(s, before, d, after, v);
    }
    forall before, d, after | Renders(s, before, d, after, v) ensures ParseDocument(s) == Ok(v) {
      DocumentReads(before, d, after);
    }
  }
}
