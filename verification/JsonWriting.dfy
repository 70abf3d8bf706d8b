/**
 The two serialisers, as plain recursive text writers in character codes: the compact form of JSON.stringify and of
 json.dumps(ensure_ascii=False, separators=(",", ":")), and the default form of json.dumps that the recovery log has.
 */
module JsonWriting {
  import opened Unicode
  import opened JsonValues
  import opened JsonSyntax
  import opened JsonPrinting
  import opened AsciiCodec
  import opened AsciiDump
  import opened JsonLexicon

  datatype Style = Compact | Ascii

  // A hexadecimal digit in lower case.
  function Lower(d: int): int { if d < 10 then '0' as int + d else 'a' as int + (d - 10) }

  function Escape(n: int): Text {
    ['\\' as int, 'u' as int, Lower(n / 0x1000 % 16), Lower(n / 0x100 % 16), Lower(n / 0x10 % 16), Lower(n % 16)]
  }

  // One character: quotes, backslashes and control codes are escaped, and in ASCII style everything beyond the tilde.
  function Written(c: int, style: Style): Text {
    if c == '"' as int then ToText("\\\"")
    else if c == '\\' as int then ToText("\\\\")
    else if c == 0x08 then ToText("\\b")
    else if c == 0x09 then ToText("\\t")
    else if c == 0x0A then ToText("\\n")
    else if c == 0x0C then ToText("\\f")
    else if c == 0x0D then ToText("\\r")
    else if c < 0x20 then Escape(c)
    else if style == Compact || c <= '~' as int then [c]
    else if c <= 0xFFFF then Escape(c)
    else Escape(0xD800 + (c - 0x10000) / 0x400) + Escape(0xDC00 + (c - 0x10000) % 0x400)
  }

  function Content(s: Text, style: Style): Text {
    if s == [] then [] else Written(s[0], style) + Content(s[1..], style)
  }

  function StringText(s: Text, style: Style): Text { ['"' as int] + Content(s, style) + ['"' as int] }

  function Comma(style: Style): Text { if style == Compact then ToText(",") else ToText(", ") }

  function Colon(style: Style): Text { if style == Compact then ToText(":") else ToText(": ") }

  function Write(v: Json, style: Style): Text
    decreases v, 1
  {
    match v
    case Null => ToText("null")
    case Bool(b) => if b then ToText("true") else ToText("false")
    case Num(n) => NumberText(n)
    case Str(s) => StringText(s, style)
    case Arr(items) => ToText("[") + WriteItems(items, style) + ToText("]")
    case Obj(members) => ToText("{") + WriteMembers(members, style) + ToText("}")
  }

  function WriteItems(items: seq<Json>, style: Style): Text
    decreases items, 0
  {
    if items == [] then []
    else Write(items[0], style) + (if |items| == 1 then [] else Comma(style) + WriteItems(items[1..], style))
  }

  function WriteMembers(members: seq<Member>, style: Style): Text
    decreases members, 0
  {
    if members == [] then []
    else
      var m := members[0];
      (StringText(m.key, style) + Colon(style) + Write(m.value, style)) +
      (if |members| == 1 then [] else Comma(style) + WriteMembers(members[1..], style))
  }

  /******* Strings *******/

  lemma HexSpelled(c: int, rest: Text)
    requires 0 <= c <= 0xFFFF
    ensures SpellElem(HexOf(c), rest) == Escape(c) + rest
  {
  }

  // The elements of one character.
  function ElemsOf(c: int, style: Style): seq<Elem> { if style == Compact then [CanonicalElem(c)] else AsciiElem(c) }

  predicate Marked(c: int) {
    c == QUOTE || c == BACKSLASH || c == 0x08 || c == 0x09 || c == 0x0A || c == 0x0C || c == 0x0D
  }

  lemma OneElem(e: Elem, rest: Text)
    ensures SpellPart([e], rest) == SpellElem(e, rest)
  {
    assert [e][1..] == [];
  }

  lemma MarkWritten(c: int, style: Style, rest: Text)
    requires Marked(c)
    ensures |ElemsOf(c, style)| == 1 && SpellElem(ElemsOf(c, style)[0], rest) == Written(c, style) + rest
  {
    assert ElemsOf(c, style)[0].Short? && |Written(c, style)| == 2;
    assert Written(c, style) == [BACKSLASH, ElemsOf(c, style)[0].mark];
  }

  lemma ControlWritten(c: int, style: Style)
    requires 0 <= c < 0x20 && !Marked(c)
    ensures ElemsOf(c, style) == [HexOf(c)] && Written(c, style) == Escape(c)
  {
  }

  lemma BeyondWritten(c: int)
    requires 0x7E < c <= 0x10FFFF
    ensures c <= 0xFFFF ==> ElemsOf(c, Ascii) == [HexOf(c)] && Written(c, Ascii) == Escape(c)
    ensures c > 0xFFFF ==>
      var high, low := 0xD800 + (c - 0x10000) / 0x400, 0xDC00 + (c - 0x10000) % 0x400;
      && 0 <= high <= 0xFFFF && 0 <= low <= 0xFFFF
      && ElemsOf(c, Ascii) == [HexOf(high), HexOf(low)] && Written(c, Ascii) == Escape(high) + Escape(low)
  {
    hide HexOf, Escape;
  }

  lemma PlainWritten(c: int, style: Style)
    requires !Marked(c) && 0x20 <= c && (style == Ascii ==> c <= 0x7E)
    ensures ElemsOf(c, style) == [Raw(c)] && Written(c, style) == [c]
  {
  }

  lemma OneWritten(c: int, style: Style, rest: Text)
    requires 0 <= c <= 0x10FFFF
    ensures SpellPart(ElemsOf(c, style), rest) == Written(c, style) + rest
  {
    hide SpellElem, Written, ElemsOf, Escape, HexOf, SpellPart;
    if Marked(c) {
      MarkWritten(c, style, rest);
      OneElem(ElemsOf(c, style)[0], rest);
      assert ElemsOf(c, style) == [ElemsOf(c, style)[0]];
    } else if c < 0x20 {
      ControlWritten(c, style);
      HexSpelled(c, rest);
      OneElem(HexOf(c), rest);
    } else if style == Ascii && c > 0x7E {
      BeyondWritten(c);
      if c <= 0xFFFF {
        HexSpelled(c, rest);
        OneElem(HexOf(c), rest);
      } else {
        PairWritten(0xD800 + (c - 0x10000) / 0x400, 0xDC00 + (c - 0x10000) % 0x400, rest);
      }
    } else {
      PlainWritten(c, style);
      OneElem(Raw(c), rest);
      RawSpelled(c, rest);
    }
  }

  lemma RawSpelled(c: int, rest: Text)
    ensures SpellElem(Raw(c), rest) == [c] + rest
  {
  }

  lemma PairWritten(high: int, low: int, rest: Text)
    requires 0 <= high <= 0xFFFF && 0 <= low <= 0xFFFF
    ensures SpellPart([HexOf(high), HexOf(low)], rest) == Escape(high) + Escape(low) + rest
  {
    hide HexOf, Escape, SpellElem;
    assert [HexOf(high), HexOf(low)][1..] == [HexOf(low)];
    OneElem(HexOf(low), rest);
    HexSpelled(low, rest);
    HexSpelled(high, Escape(low) + rest);
    assert Escape(high) + (Escape(low) + rest) == Escape(high) + Escape(low) + rest;
  }

  function AllElems(s: Text, style: Style): seq<Elem> { if style == Compact then CanonicalElems(s) else AsciiElems(s) }

  lemma {:induction false} PartConcat(a: seq<Elem>, b: seq<Elem>, rest: Text)
    ensures SpellPart(a + b, rest) == SpellPart(a, SpellPart(b, rest))
  {
    if a == [] {
      assert a + b == b;
    } else {
      assert (a + b)[1..] == a[1..] + b;
      PartConcat(a[1..], b, rest);
    }
  }

  lemma {:induction false} ContentWritten(s: Text, style: Style, rest: Text)
    requires PyText(s)
    ensures SpellPart(AllElems(s, style), rest) == Content(s, style) + rest
  {
    if s == [] {
      assert AllElems(s, style) == [] && [] + rest == rest;
    } else {
      ContentWritten(s[1..], style, rest);
      OneWritten(s[0], style, SpellPart(AllElems(s[1..], style), rest));
      PartConcat(ElemsOf(s[0], style), AllElems(s[1..], style), rest);
      assert AllElems(s, style) == ElemsOf(s[0], style) + AllElems(s[1..], style);
      hide Written, SpellPart, AllElems, ElemsOf;
      assert Written(s[0], style) + (Content(s[1..], style) + rest) == Written(s[0], style) + Content(s[1..], style) + rest;
    }
  }

  lemma StringWritten(s: Text, style: Style, rest: Text)
    requires PyText(s)
    ensures [QUOTE] + SpellElems(AllElems(s, style), rest) == StringText(s, style) + rest
  {
    hide SpellPart, Content, AllElems;
    PartQuoted(AllElems(s, style), rest);
    ContentWritten(s, style, [QUOTE] + rest);
    var c := Content(s, style);
    assert [QUOTE] + (c + ([QUOTE] + rest)) == [QUOTE] + c + [QUOTE] + rest;
  }

  /******* Values *******/

  // Strings of code points or units; numbers as the grammar has them.
  ghost predicate Writable(v: Json)
    decreases v, 1
  {
    match v
    case Str(s) => PyText(s)
    case Arr(items) => WritableItems(items)
    case Obj(members) => WritableMembers(members)
    case _ => true
  }

  ghost predicate WritableItems(items: seq<Json>)
    decreases items, 0
  {
    items == [] || (Writable(items[0]) && WritableItems(items[1..]))
  }

  ghost predicate WritableMembers(members: seq<Member>)
    decreases members, 0
  {
    members == [] || (PyText(members[0].key) && Writable(members[0].value) && WritableMembers(members[1..]))
  }

  function TreeIn(v: Json, style: Style): Tree { if style == Compact then Canonical(v) else AsciiTree(v) }

  lemma {:induction false} ValueWritten(v: Json, style: Style, rest: Text)
    requires Writable(v)
    ensures Spell(TreeIn(v, style), rest) == Write(v, style) + rest
    decreases v, 1
  {
    hide SpellElems, SpellItems, SpellPairs, StringText, WriteItems, WriteMembers, SpellNumber, NumberText, PyText;
    match v
    case Null => assert NULL == ToText("null");
    case Bool(b) => assert TRUE == ToText("true") && FALSE == ToText("false");
    case Num(n) => NumberWritten(n, rest);
    case Str(s) => StringWritten(s, style, rest);
    case Arr(items) =>
      hide WritableItems, Comma, Colon, CanonicalItems, AsciiItems;
      Bracketed(OPEN_ARRAY, WriteItems(items, style), CLOSE_ARRAY, rest);
      if items == [] {
        NoItems(style);
      } else {
        ItemsWritten([], items, style, rest);
      }
    case Obj(members) =>
      hide WritableMembers, Comma, Colon, CanonicalPairs, AsciiPairs;
      Bracketed(OPEN_OBJECT, WriteMembers(members, style), CLOSE_OBJECT, rest);
      if members == [] {
        NoItems(style);
      } else {
        MembersWritten([], members, style, rest);
      }
  }

  lemma NoItems(style: Style)
    ensures WriteItems([], style) == [] && WriteMembers([], style) == []
  {
  }

  lemma Bracketed(open: int, s: Text, close: int, rest: Text)
    ensures [open] + (s + ([close] + rest)) == [open] + s + [close] + rest
    ensures [open] + ([] + ([close] + rest)) == [open] + [] + [close] + rest
  {
  }

  lemma NumberWritten(n: Number, rest: Text)
    ensures SpellNumber(n, rest) == NumberText(n) + rest
  {
    NumberSpelling(n);
    NumberAppend(n, [], rest);
    assert [] + rest == rest;
  }

  function ItemsIn(before: Text, items: seq<Json>, style: Style): seq<Item> {
    if style == Compact then CanonicalItems(items) else AsciiItems(before, items)
  }

  function PairsIn(before: Text, members: seq<Member>, style: Style): seq<Pair> {
    if style == Compact then CanonicalPairs(members) else AsciiPairs(before, members)
  }

  function Space(style: Style): Text { if style == Compact then [] else SPACE }

  lemma Regrouped(a: Text, b: Text, c: Text, d: Text, e: Text)
    ensures a + (b + (c + (d + e))) == (a + ((b + c) + d)) + e
  {
  }

  lemma ItemsInStep(before: Text, items: seq<Json>, style: Style)
    requires items != [] && (style == Compact ==> before == [])
    ensures var rest := ItemsIn(Space(style), items[1..], style);
      && ItemsIn(before, items, style) == [Item(before, TreeIn(items[0], style), [])] + rest
      && (rest == [] <==> items[1..] == [])
  {
    hide Canonical, AsciiTree;
  }

  lemma PairsInStep(before: Text, members: seq<Member>, style: Style)
    requires members != [] && (style == Compact ==> before == [])
    ensures var m, rest := members[0], PairsIn(Space(style), members[1..], style);
      && PairsIn(before, members, style) ==
         [Pair(before, AllElems(m.key, style), [], Space(style), TreeIn(m.value, style), [])] + rest
      && (rest == [] <==> members[1..] == [])
  {
    hide Canonical, AsciiTree, CanonicalElems, AsciiElems;
  }

  lemma WriteStep(items: seq<Json>, style: Style)
    requires items != []
    ensures WriteItems(items, style) == Write(items[0], style) +
      (if items[1..] == [] then [] else Comma(style) + WriteItems(items[1..], style))
  {
    hide Write;
  }

  lemma WriteMembersStep(members: seq<Member>, style: Style)
    requires members != []
    ensures var m := members[0];
      WriteMembers(members, style) == (StringText(m.key, style) + Colon(style) + Write(m.value, style)) +
      (if members[1..] == [] then [] else Comma(style) + WriteMembers(members[1..], style))
  {
    hide Write, StringText, Colon, Comma;
  }

  // The items of a list: the space goes before every item but the first.
  lemma {:induction false} ItemsWritten(before: Text, items: seq<Json>, style: Style, rest: Text)
    requires WritableItems(items) && items != [] && (style == Compact ==> before == [])
    ensures SpellItems(ItemsIn(before, items, style), rest) == before + (WriteItems(items, style) + ([CLOSE_ARRAY] + rest))
    decreases items, 0
  {
    ItemsInStep(before, items, style);
    WriteStep(items, style);
    var all, first, more := ItemsIn(before, items, style), Write(items[0], style), items[1..];
    ItemsOf(all, rest);
    hide Spell, Write, Writable, TreeIn, ItemsIn, SpellItems, WriteItems;
    assert all[1..] == ItemsIn(Space(style), more, style);
    if more == [] {
      ValueWritten(items[0], style, [CLOSE_ARRAY] + rest);
      assert [] + ([CLOSE_ARRAY] + rest) == [CLOSE_ARRAY] + rest && first + [] == first;
    } else {
      ItemsWritten(Space(style), more, style, rest);
      var tail := SpellItems(all[1..], rest);
      ValueWritten(items[0], style, [COMMA] + tail);
      assert [] + ([COMMA] + tail) == [COMMA] + tail;
      var w := WriteItems(more, style);
      assert Comma(style) == [COMMA] + Space(style);
      Regrouped(first, [COMMA], Space(style), w, [CLOSE_ARRAY] + rest);
    }
  }

  lemma {:induction false} MembersWritten(before: Text, members: seq<Member>, style: Style, rest: Text)
    requires WritableMembers(members) && members != [] && (style == Compact ==> before == [])
    ensures SpellPairs(PairsIn(before, members, style), rest) == before + (WriteMembers(members, style) + ([CLOSE_OBJECT] + rest))
    decreases members, 0
  {
    PairsInStep(before, members, style);
    var all, m, more := PairsIn(before, members, style), members[0], members[1..];
    var first, w := StringText(m.key, style) + Colon(style) + Write(m.value, style), WriteMembers(more, style);
    WriteMembersStep(members, style);
    PairsOf(all, rest);
    hide Spell, Write, Writable, TreeIn, PairsIn, SpellPairs, WriteMembers, SpellElems, AllElems, StringText, PyText, Colon;
    assert all[1..] == PairsIn(Space(style), more, style);
    if more == [] {
      MemberWritten(before, m, style, [CLOSE_OBJECT] + rest);
      assert first + [] == first;
    } else {
      MembersWritten(Space(style), more, style, rest);
      var tail := SpellPairs(all[1..], rest);
      MemberWritten(before, m, style, [COMMA] + tail);
      assert Comma(style) == [COMMA] + Space(style);
      Regrouped(first, [COMMA], Space(style), w, [CLOSE_OBJECT] + rest);
    }
  }

  // One member up to the comma or the closing brace.
  lemma MemberWritten(before: Text, m: Member, style: Style, tail: Text)
    requires PyText(m.key) && Writable(m.value)
    ensures
      before + ([QUOTE] + SpellElems(AllElems(m.key, style), [] + ([COLON] + (Space(style) + Spell(TreeIn(m.value, style), [] + tail))))) ==
      before + ((StringText(m.key, style) + Colon(style) + Write(m.value, style)) + tail)
    decreases m, 0
  {
    hide Spell, SpellElems, Write, StringText, AllElems, PyText, Writable, TreeIn;
    ValueWritten(m.value, style, tail);
    assert [] + tail == tail;
    var value := Write(m.value, style) + tail;
    var colon := [COLON] + (Space(style) + value);
    assert [] + colon == colon && Colon(style) == [COLON] + Space(style);
    StringWritten(m.key, style, colon);
    var s := StringText(m.key, style);
    assert s + ([COLON] + (Space(style) + (Write(m.value, style) + tail))) == (s + ([COLON] + Space(style)) + Write(m.value, style)) + tail;
  }

  // The compact serialisation, and the dump of the recovery log, are what the writers write.
  lemma PrintIsWritten(v: Json)
    requires Writable(v)
    ensures Print(v) == Write(v, Compact) && Dump(v) == Write(v, Ascii)
  {
    ValueWritten(v, Compact, []);
    ValueWritten(v, Ascii, []);
    assert Write(v, Compact) + [] == Write(v, Compact) && Write(v, Ascii) + [] == Write(v, Ascii);
  }
}
