/** JSON text with any whitespace, and the parser as its inverse. */
module JsonText {
  import opened Bytes
  import Ascii
  import opened Json
  import opened JsonNumerals
  import opened JsonStrings

  // ----- documents with their whitespace -----

  datatype Doc =
    | NullDoc
    | BoolDoc(b: bool)
    | NumberDoc(numeral: Numeral)
    | StringDoc(pieces: Spelling)
    | ArrayDoc(blank: bytes, items: Items)
    | ObjectDoc(blank: bytes, members: Members)

  /** Items in order, each with the whitespace around it. */
  datatype Items = NoItems | Item(before: bytes, doc: Doc, after: bytes, more: Items)

  datatype Members = NoMembers
    | Member(before: bytes, key: Spelling, afterKey: bytes, beforeValue: bytes, doc: Doc, after: bytes, more: Members)

  function Text(d: Doc): bytes {
    match d
    case NullDoc => "null"
    case BoolDoc(b) => if b then "true" else "false"
    case NumberDoc(numeral) => NumeralText(numeral)
    case StringDoc(pieces) => Spelled(pieces)
    case ArrayDoc(blank, items) => "[" + (if items == NoItems then blank + "]" else items.before + ItemsText(items))
    case ObjectDoc(blank, members) =>
      "{" + (if members == NoMembers then blank + "}" else members.before + MembersText(members))
  }

  /** The items from the first one's value on, to the closing bracket. */
  function ItemsText(items: Items): bytes
    requires items.Item?
  {
    Text(items.doc) + (items.after +
        (if items.more == NoItems then "]" else "," + (items.more.before + ItemsText(items.more))))
  }

  /** The members from the first one's key on, to the closing brace. */
  function MembersText(m: Members): bytes
    requires m.Member?
  {
    Spelled(m.key) + (m.afterKey + (":" + (m.beforeValue + (Text(m.doc) + (m.after +
      (if m.more == NoMembers then "}" else "," + (m.more.before + MembersText(m.more))))))))
  }

  function ValueOf(d: Doc): JsonValue {
    match d
    case NullDoc => Null
    case BoolDoc(b) => Bool(b)
    case NumberDoc(numeral) => Number(NumeralText(numeral))
    case StringDoc(pieces) => String(MeaningOf(pieces))
    case ArrayDoc(_, items) => Array(ItemValues(items))
    case ObjectDoc(_, members) => Object(MemberValues(members))
  }

  function ItemValues(items: Items): seq<JsonValue> {
    if items == NoItems then [] else [ValueOf(items.doc)] + ItemValues(items.more)
  }

  function MemberValues(m: Members): seq<(bytes, JsonValue)> {
    if m == NoMembers then [] else [(MeaningOf(m.key), ValueOf(m.doc))] + MemberValues(m.more)
  }

  function Max(a: nat, b: nat): nat {
    if a >= b then a else b
  }

  /** How many arrays and objects are open at the deepest point. */
  function Depth(d: Doc): nat {
    match d
    case ArrayDoc(_, items) => 1 + ItemsDepth(items)
    case ObjectDoc(_, members) => 1 + MembersDepth(members)
    case _ => 0
  }

  function ItemsDepth(items: Items): nat {
    if items == NoItems then 0 else Max(Depth(items.doc), ItemsDepth(items.more))
  }

  function MembersDepth(m: Members): nat {
    if m == NoMembers then 0 else Max(Depth(m.doc), MembersDepth(m.more))
  }

  predicate AllSpace(s: bytes) {
    forall i :: 0 <= i < |s| ==> IsSpace(s[i])
  }

  predicate WellFormed(d: Doc) {
    match d
    case NumberDoc(numeral) => IsNumeral(numeral)
    case StringDoc(pieces) => IsSpelling(pieces)
    case ArrayDoc(blank, items) => AllSpace(blank) && WellFormedItems(items)
    case ObjectDoc(blank, members) => AllSpace(blank) && WellFormedMembers(members)
    case _ => true
  }

  predicate WellFormedItems(items: Items) {
    items == NoItems ||
    (AllSpace(items.before) && AllSpace(items.after) && WellFormed(items.doc) && WellFormedItems(items.more))
  }

  predicate WellFormedMembers(m: Members) {
    m == NoMembers ||
    (AllSpace(m.before) && AllSpace(m.afterKey) && AllSpace(m.beforeValue) && AllSpace(m.after)
     && IsSpelling(m.key) && WellFormed(m.doc) && WellFormedMembers(m.more))
  }

  // ----- tokens read back -----

  lemma {:induction false} SpacesRead(s: bytes, p: nat, ws: bytes)
    requires AllSpace(ws) && MatchAt(s, ws, p) && (p + |ws| < |s| ==> !IsSpace(s[p + |ws|]))
    ensures SkipWs(s, p) == p + |ws|
    decreases |ws|
  {
    if ws != [] {
      assert s[p] == s[p..p + |ws|][0];
      assert s[p + 1..p + 1 + |ws[1..]|] == s[p..p + |ws|][1..];
      SpacesRead(s, p + 1, ws[1..]);
    }
  }

  lemma FirstOf(s: bytes, p: nat, text: bytes)
    requires MatchAt(s, text, p) && text != []
    ensures p < |s| && s[p] == text[0]
  {
    assert s[p..p + |text|][0] == s[p];
  }

  /** What may stand right after a value. */
  predicate Stops(s: bytes, p: nat) {
    p < |s| ==> IsSpace(s[p]) || s[p] == ',' || s[p] == ']' || s[p] == '}'
  }

  lemma NumberReads(s: bytes, p: nat, d: Doc)
    requires d.NumberDoc? && WellFormed(d) && MatchAt(s, Text(d), p) && Stops(s, p + |Text(d)|)
    ensures NumberAt(s, p) == Ok((ValueOf(d), p + |Text(d)|))
  {
    hide NumberAt; hide NumeralText; hide IsNumeral;
    NumeralReads(s, p, d.numeral);
  }

  // ----- values read back -----

  lemma NumberStarts(d: Doc)
    requires d.NumberDoc? && WellFormed(d)
    ensures Text(d) != [] && (Text(d)[0] == '-' || Ascii.IsDigit(Text(d)[0]))
  {
    hide FractionText; hide ExponentText; hide IsExponent;
    FirstIsDigit(d.numeral.whole);
  }

  /** No value starts like whitespace or like the end of a container. */
  lemma TextStarts(d: Doc)
    requires WellFormed(d)
    ensures Text(d) != [] && !IsSpace(Text(d)[0]) && Text(d)[0] != ']' && Text(d)[0] != '}'
  {
    hide ItemsText; hide MembersText; hide TextOf; hide NumeralText; hide IsNumeral;
    if d.NumberDoc? {
      NumberStarts(d);
    }
  }

  /** Whitespace and the value after it. */
  lemma SpacedValue(s: bytes, p: nat, ws: bytes, d: Doc)
    requires AllSpace(ws) && WellFormed(d) && MatchAt(s, ws, p) && MatchAt(s, Text(d), p + |ws|)
    ensures SkipWs(s, p) == p + |ws| && SkipWs(s, p + |ws|) == p + |ws|
  {
    hide Text; hide WellFormed; hide AllSpace;
    TextStarts(d);
    FirstOf(s, p + |ws|, Text(d));
    SpacesRead(s, p, ws);
  }

  /** Whitespace and the token after it. */
  lemma SpacedToken(s: bytes, p: nat, ws: bytes, token: bytes)
    requires AllSpace(ws) && token != [] && !IsSpace(token[0]) && MatchAt(s, ws, p) && MatchAt(s, token, p + |ws|)
    ensures SkipWs(s, p) == p + |ws| < |s| && s[p + |ws|] == token[0]
    ensures token[0] in {',', ']', '}'} ==> Stops(s, p)
  {
    FirstOf(s, p + |ws|, token);
    SpacesRead(s, p, ws);
    if ws != [] {
      FirstOf(s, p, ws);
    }
  }

  ghost predicate TooDeep<T>(r: Parsed<T>) {
    r.Err? && r.error.kind == DepthExceeded
  }

  /** A value reads back wherever it stands, if it nests within the limit, and is
      refused for its depth if it does not. */
  lemma {:induction false} ValueReads(s: bytes, p: nat, d: Doc, depth: nat)
    requires WellFormed(d) && MatchAt(s, Text(d), p) && Stops(s, p + |Text(d)|) && depth <= MAX_DEPTH
    ensures if depth + Depth(d) <= MAX_DEPTH then ValueAt(s, p, depth) == Ok((ValueOf(d), p + |Text(d)|))
            else TooDeep(ValueAt(s, p, depth))
    decreases d, 1
  {
    hide StringAt; hide NumberAt; hide ObjectAt; hide ArrayAt; hide Spelled; hide SkipWs;
    TextStarts(d);
    FirstOf(s, p, Text(d));
    match d
    case NullDoc =>
    case BoolDoc(b) =>
      if !b { NotTrue(s, p); }
    case NumberDoc(_) =>
      NumberReads(s, p, d);
      NumberStarts(d);
    case StringDoc(pieces) =>
      SpellingReads(s, p, pieces);
      SpelledStarts(pieces);
    case ArrayDoc(blank, items) => ArrayReads(s, p, d, depth);
    case ObjectDoc(blank, members) => ObjectReads(s, p, d, depth);
  }

  lemma NotTrue(s: bytes, p: nat)
    requires MatchAt(s, "false", p)
    ensures !MatchAt(s, "true", p) && s[p] == 'f'
  {
    FirstOf(s, p, "false");
  }

  lemma SpelledStarts(pieces: Spelling)
    ensures |Spelled(pieces)| > 0 && Spelled(pieces)[0] == '"'
  {
    hide TextOf;
  }

  lemma {:induction false} ArrayReads(s: bytes, p: nat, d: Doc, depth: nat)
    requires d.ArrayDoc? && WellFormed(d) && MatchAt(s, Text(d), p)
    ensures if depth + Depth(d) <= MAX_DEPTH then ArrayAt(s, p, depth) == Ok((ValueOf(d), p + |Text(d)|))
            else TooDeep(ArrayAt(s, p, depth))
    decreases d, 0
  {
    hide ItemsFrom; hide SkipWs; hide ValueAt; hide Text; hide ItemsText; hide Stops; hide AllSpace; hide WellFormed;
    hide ItemValues; hide ItemsDepth; hide MatchAt;
    var items := d.items;
    ArrayParts(d);
    FirstOf(s, p, Text(d));
    if items == NoItems {
      MatchConcat(s, "[", d.blank + "]", p);
      MatchConcat(s, d.blank, "]", p + 1);
      SpacedToken(s, p + 1, d.blank, "]");
    } else {
      var start := p + 1 + |items.before|;
      MatchConcat(s, "[", items.before + ItemsText(items), p);
      MatchConcat(s, items.before, ItemsText(items), p + 1);
      ItemsStart(s, start, items);
      SpacedValue(s, p + 1, items.before, items.doc);
      TextStarts(items.doc);
      FirstOf(s, start, Text(items.doc));
      if depth + 1 <= MAX_DEPTH {
        ItemsRead(s, start, start, items, depth, []);
        assert [] + ItemValues(items) == ItemValues(items);
      }
    }
  }

  lemma ArrayParts(d: Doc)
    requires d.ArrayDoc? && WellFormed(d)
    ensures Text(d) == "[" + (if d.items == NoItems then d.blank + "]" else d.items.before + ItemsText(d.items))
    ensures Text(d) != [] && Text(d)[0] == '['
    ensures AllSpace(d.blank) && WellFormedItems(d.items)
    ensures d.items == NoItems ==> ItemValues(d.items) == [] && ItemsDepth(d.items) == 0
    ensures d.items != NoItems ==> AllSpace(d.items.before) && WellFormed(d.items.doc)
  {
    hide ItemsText; hide AllSpace;
  }

  lemma ObjectParts(d: Doc)
    requires d.ObjectDoc? && WellFormed(d)
    ensures Text(d) ==
            "{" + (if d.members == NoMembers then d.blank + "}" else d.members.before + MembersText(d.members))
    ensures Text(d) != [] && Text(d)[0] == '{'
    ensures AllSpace(d.blank) && WellFormedMembers(d.members)
    ensures d.members == NoMembers ==> MemberValues(d.members) == [] && MembersDepth(d.members) == 0
    ensures d.members != NoMembers ==> AllSpace(d.members.before)
  {
    hide MembersText; hide AllSpace;
  }

  lemma ItemsTextIs(items: Items)
    requires items.Item?
    ensures ItemsText(items) ==
            Text(items.doc) + (items.after +
                (if items.more == NoItems then "]" else "," + (items.more.before + ItemsText(items.more))))
  {
    hide Text;
  }

  /** The parts of an item list, in their places. */
  lemma ItemsStart(s: bytes, p: nat, items: Items)
    requires items.Item? && MatchAt(s, ItemsText(items), p)
    ensures MatchAt(s, Text(items.doc), p)
    ensures var q := p + |Text(items.doc)|;
            && MatchAt(s, items.after, q)
            && (items.more == NoItems ==> MatchAt(s, "]", q + |items.after|))
            && (items.more != NoItems ==>
                  && MatchAt(s, ",", q + |items.after|)
                  && MatchAt(s, items.more.before, q + |items.after| + 1)
                  && MatchAt(s, ItemsText(items.more), q + |items.after| + 1 + |items.more.before|))
  {
    hide Text; hide ItemsText; hide MatchAt;
    ItemsTextIs(items);
    var q := p + |Text(items.doc)|;
    var end := if items.more == NoItems then "]" else "," + (items.more.before + ItemsText(items.more));
    MatchConcat(s, Text(items.doc), items.after + end, p);
    MatchConcat(s, items.after, end, q);
    if items.more != NoItems {
      MatchConcat(s, ",", items.more.before + ItemsText(items.more), q + |items.after|);
      MatchConcat(s, items.more.before, ItemsText(items.more), q + |items.after| + 1);
    }
  }

  lemma {:induction false} ItemsRead(s: bytes, p: nat, q: nat, items: Items, depth: nat, acc: seq<JsonValue>)
    requires items.Item? && WellFormedItems(items) && p <= |s| && SkipWs(s, p) == q && MatchAt(s, ItemsText(items), q)
    requires depth + 1 <= MAX_DEPTH
    ensures if depth + 1 + ItemsDepth(items) <= MAX_DEPTH
            then ItemsFrom(s, p, depth, acc) == Ok((Array(acc + ItemValues(items)), q + |ItemsText(items)|))
            else TooDeep(ItemsFrom(s, p, depth, acc))
    decreases items, 2
  {
    hide ValueAt; hide SkipWs; hide Text; hide WellFormed; hide Depth; hide ValueOf; hide Stops; hide AllSpace;
    hide MatchAt;
    ItemsStart(s, q, items);
    var end := q + |Text(items.doc)|;
    var token := if items.more == NoItems then "]" else ",";
    SpacedToken(s, end, items.after, token);
    ValueReads(s, q, items.doc, depth + 1);
    if depth + 1 + Depth(items.doc) <= MAX_DEPTH {
      assert ItemsDepth(items) == Max(Depth(items.doc), ItemsDepth(items.more)) && ItemsDepth(NoItems) == 0;
      var comma := end + |items.after|;
      var values := acc + [ValueOf(items.doc)];
      if items.more == NoItems {
        assert acc + ItemValues(items) == values;
      } else {
        ItemsStart(s, comma + 1 + |items.more.before|, items.more);
        SpacedValue(s, comma + 1, items.more.before, items.more.doc);
        ItemsRead(s, comma + 1, comma + 1 + |items.more.before|, items.more, depth, values);
        assert acc + ItemValues(items) == values + ItemValues(items.more);
      }
    }
  }

  lemma {:induction false} ObjectReads(s: bytes, p: nat, d: Doc, depth: nat)
    requires d.ObjectDoc? && WellFormed(d) && MatchAt(s, Text(d), p)
    ensures if depth + Depth(d) <= MAX_DEPTH then ObjectAt(s, p, depth) == Ok((ValueOf(d), p + |Text(d)|))
            else TooDeep(ObjectAt(s, p, depth))
    decreases d, 0
  {
    hide MembersFrom; hide SkipWs; hide ValueAt; hide Spelled; hide Text; hide MembersText; hide Stops; hide AllSpace;
    hide WellFormed;
    hide MemberValues; hide MembersDepth; hide MatchAt;
    var members := d.members;
    ObjectParts(d);
    FirstOf(s, p, Text(d));
    if members == NoMembers {
      MatchConcat(s, "{", d.blank + "}", p);
      MatchConcat(s, d.blank, "}", p + 1);
      SpacedToken(s, p + 1, d.blank, "}");
    } else {
      var start := p + 1 + |members.before|;
      MatchConcat(s, "{", members.before + MembersText(members), p);
      MatchConcat(s, members.before, MembersText(members), p + 1);
      MembersStart(s, start, members);
      SpelledStarts(members.key);
      SpacedToken(s, p + 1, members.before, Spelled(members.key));
      if depth + 1 <= MAX_DEPTH {
        SpacesRead(s, start, []) by { NoSpaces(); }
        MembersRead(s, start, start, members, depth, []);
        assert [] + MemberValues(members) == MemberValues(members);
      }
    }
  }

  lemma NoSpaces()
    ensures AllSpace([])
  {
  }

  /** Where the parts of a member stand. */
  function ColonAt(p: nat, m: Members): nat
    requires m.Member?
  {
    p + |Spelled(m.key)| + |m.afterKey|
  }

  function MemberValueAt(p: nat, m: Members): nat
    requires m.Member?
  {
    ColonAt(p, m) + 1 + |m.beforeValue|
  }

  function MemberEnd(p: nat, m: Members): nat
    requires m.Member?
  {
    MemberValueAt(p, m) + |Text(m.doc)| + |m.after|
  }

  lemma MembersStart(s: bytes, p: nat, m: Members)
    requires m.Member? && MatchAt(s, MembersText(m), p)
    ensures MatchAt(s, Spelled(m.key), p) && MatchAt(s, m.afterKey, p + |Spelled(m.key)|)
            && MatchAt(s, ":", ColonAt(p, m))
    ensures MatchAt(s, m.beforeValue, ColonAt(p, m) + 1) && MatchAt(s, Text(m.doc), MemberValueAt(p, m))
    ensures MatchAt(s, m.after, MemberValueAt(p, m) + |Text(m.doc)|)
    ensures m.more == NoMembers ==> MatchAt(s, "}", MemberEnd(p, m)) && p + |MembersText(m)| == MemberEnd(p, m) + 1
    ensures m.more != NoMembers ==>
              && MatchAt(s, ",", MemberEnd(p, m))
              && MatchAt(s, m.more.before, MemberEnd(p, m) + 1)
              && MatchAt(s, MembersText(m.more), MemberEnd(p, m) + 1 + |m.more.before|)
              && p + |MembersText(m)| == MemberEnd(p, m) + 1 + |m.more.before| + |MembersText(m.more)|
  {
    hide Text; hide Spelled; hide MembersText; hide MembersTail; hide MatchAt;
    var end := MembersTail(m);
    MembersTextIs(m);
    var t3 := m.after + end;
    var t2 := Text(m.doc) + t3;
    var t1 := m.beforeValue + t2;
    var t0 := ":" + t1;
    MatchConcat(s, Spelled(m.key), m.afterKey + t0, p);
    MatchConcat(s, m.afterKey, t0, p + |Spelled(m.key)|);
    MatchConcat(s, ":", t1, ColonAt(p, m));
    MatchConcat(s, m.beforeValue, t2, ColonAt(p, m) + 1);
    MatchConcat(s, Text(m.doc), t3, MemberValueAt(p, m));
    MatchConcat(s, m.after, end, MemberValueAt(p, m) + |Text(m.doc)|);
    MembersTailStart(s, MemberEnd(p, m), m);
  }

  /** What follows a member: the closing brace, or a comma and the others. */
  function MembersTail(m: Members): bytes
    requires m.Member?
  {
    if m.more == NoMembers then "}" else "," + (m.more.before + MembersText(m.more))
  }

  lemma MembersTextIs(m: Members)
    requires m.Member?
    ensures MembersText(m) ==
            Spelled(m.key) + (m.afterKey + (":" + (m.beforeValue + (Text(m.doc) + (m.after + MembersTail(m))))))
  {
    hide Text; hide Spelled;
  }

  lemma MembersTailStart(s: bytes, p: nat, m: Members)
    requires m.Member? && MatchAt(s, MembersTail(m), p)
    ensures m.more == NoMembers ==> MatchAt(s, "}", p) && |MembersTail(m)| == 1
    ensures m.more != NoMembers ==>
              && MatchAt(s, ",", p) && MatchAt(s, m.more.before, p + 1)
              && MatchAt(s, MembersText(m.more), p + 1 + |m.more.before|)
              && |MembersTail(m)| == 1 + |m.more.before| + |MembersText(m.more)|
  {
    hide MembersText; hide MatchAt;
    if m.more != NoMembers {
      MatchConcat(s, ",", m.more.before + MembersText(m.more), p);
      MatchConcat(s, m.more.before, MembersText(m.more), p + 1);
    }
  }

  /** One member reads back, up to the comma or brace after it. */
  lemma {:induction false} MemberReads(s: bytes, p: nat, q: nat, m: Members, depth: nat)
    requires m.Member? && WellFormedMembers(m) && p <= |s| && SkipWs(s, p) == q && MatchAt(s, MembersText(m), q)
    requires depth <= MAX_DEPTH
    ensures if depth + Depth(m.doc) <= MAX_DEPTH
            then MemberAt(s, p, depth) == Ok(((MeaningOf(m.key), ValueOf(m.doc)), MemberEnd(q, m)))
            else TooDeep(MemberAt(s, p, depth))
    decreases m, 2
  {
    hide ValueAt; hide SkipWs; hide Text; hide WellFormed; hide Depth; hide ValueOf; hide Stops; hide AllSpace;
    hide StringAt;
    hide Spelled; hide MembersText; hide IsSpelling; hide MatchAt;
    MembersStart(s, q, m);
    SpelledStarts(m.key);
    FirstOf(s, q, Spelled(m.key));
    SpellingReads(s, q, m.key);
    SpacedToken(s, q + |Spelled(m.key)|, m.afterKey, ":");
    SpacedValue(s, ColonAt(q, m) + 1, m.beforeValue, m.doc);
    var token := if m.more == NoMembers then "}" else ",";
    SpacedToken(s, MemberValueAt(q, m) + |Text(m.doc)|, m.after, token);
    ValueReads(s, MemberValueAt(q, m), m.doc, depth);
  }

  lemma {:induction false} MembersRead(
    s: bytes, p: nat, q: nat, m: Members, depth: nat, acc: seq<(bytes, JsonValue)>)
    requires m.Member? && WellFormedMembers(m) && p <= |s| && SkipWs(s, p) == q && MatchAt(s, MembersText(m), q)
    requires depth + 1 <= MAX_DEPTH
    ensures if depth + 1 + MembersDepth(m) <= MAX_DEPTH
            then MembersFrom(s, p, depth, acc) == Ok((Object(acc + MemberValues(m)), q + |MembersText(m)|))
            else TooDeep(MembersFrom(s, p, depth, acc))
    decreases m, 3
  {
    hide MemberAt; hide SkipWs; hide WellFormed; hide Depth; hide ValueOf; hide AllSpace; hide Spelled;
    hide MembersText; hide IsSpelling;
    hide MemberEnd; hide MatchAt;
    MembersStart(s, q, m);
    MemberReads(s, p, q, m, depth + 1);
    if depth + 1 + Depth(m.doc) <= MAX_DEPTH {
      var end := MemberEnd(q, m);
      assert MembersDepth(m) == Max(Depth(m.doc), MembersDepth(m.more)) && MembersDepth(NoMembers) == 0;
      var values := acc + [(MeaningOf(m.key), ValueOf(m.doc))];
      if m.more == NoMembers {
        FirstOf(s, end, "}");
        assert acc + MemberValues(m) == values;
      } else {
        FirstOf(s, end, ",");
        var next := end + 1 + |m.more.before|;
        MembersStart(s, next, m.more);
        SpelledStarts(m.more.key);
        SpacedToken(s, end + 1, m.more.before, Spelled(m.more.key));
        MembersRead(s, end + 1, next, m.more, depth, values);
        assert acc + MemberValues(m) == values + MemberValues(m.more);
      }
    }
  }

  /** Any document, in any layout, parses to its value exactly when it nests
      within the limit, and is otherwise refused for its depth. */
  lemma DocumentReads(before: bytes, d: Doc, after: bytes)
    requires WellFormed(d) && AllSpace(before) && AllSpace(after)
    ensures var r := ParseDocument(before + Text(d) + after);
            if Depth(d) <= 64 then r == Ok(ValueOf(d)) else r.Err? && r.error.kind == DepthExceeded
  {
    hide ValueAt; hide SkipWs; hide Text; hide WellFormed; hide Depth; hide ValueOf;
    var s := before + Text(d) + after;
    var p, q := |before|, |before| + |Text(d)|;
    assert MatchAt(s, before, 0) && MatchAt(s, Text(d), p) && MatchAt(s, after, q);
    SpacedValue(s, 0, before, d);
    if after != [] {
      FirstOf(s, q, after);
    }
    ValueReads(s, p, d, 0);
    SpacesRead(s, q, after);
  }
}
