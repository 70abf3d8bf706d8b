/**
 Key order through a dump and a load: when a value comes back unchanged, when it is dumped again
 to the same text, and why a dump is one line.
 */
module DumpOrder {
  import opened Unicode
  import opened JsonValues
  import opened JsonSyntax
  import opened JsonReading
  import opened TwoPass
  import opened AsciiCodec
  import opened AsciiDump

  /******* The order of keys *******/

  lemma {:induction false} LessTotal(a: Text, b: Text)
    ensures a == b || Less(a, b) || Less(b, a)
    ensures Less(a, b) ==> a != b && !Less(b, a)
  {
    if a != [] && b != [] {
      LessTotal(a[1..], b[1..]);
      assert a == [a[0]] + a[1..] && b == [b[0]] + b[1..];
    }
  }

  lemma {:induction false} LessTransitive(a: Text, b: Text, c: Text)
    requires Less(a, b) && Less(b, c)
    ensures Less(a, c)
  {
    if a != [] && a[0] == b[0] == c[0] {
      LessTransitive(a[1..], b[1..], c[1..]);
    }
  }

  lemma FirstDiffers(a: Text, b: Text, k: nat)
    requires k < |a| && k < |b| && a[0] != b[0]
    ensures a[..k] == b[..k] ==> k == 0
  {
    if k > 0 {
      assert a[..k][0] == a[0] && b[..k][0] == b[0];
    }
  }

  // The order of keys: a proper prefix comes first, else the first difference decides.
  lemma {:induction false} LessExact(a: Text, b: Text)
    ensures Less(a, b) <==> a < b || exists k :: 0 <= k < |a| && k < |b| && a[..k] == b[..k] && a[k] < b[k]
  {
    if a == [] || b == [] || a[0] != b[0] {
      if Less(a, b) && a != [] {
        assert a[..0] == b[..0];
      }
      forall k | 0 <= k < |a| && k < |b| ensures a[..k] == b[..k] ==> k == 0 {
        FirstDiffers(a, b, k);
      }
    } else {
      LessExact(a[1..], b[1..]);
      assert a == [a[0]] + a[1..] && b == [b[0]] + b[1..];
      assert a < b <==> a[1..] < b[1..] by {
        assert forall i :: 0 < i < |a| ==> a[i] == a[1..][i - 1];
        assert forall i :: 0 < i < |b| ==> b[i] == b[1..][i - 1];
      }
      if k :| 0 <= k < |a[1..]| && k < |b[1..]| && a[1..][..k] == b[1..][..k] && a[1..][k] < b[1..][k] {
        assert a[..k + 1] == [a[0]] + a[1..][..k] && b[..k + 1] == [b[0]] + b[1..][..k];
        assert a[k + 1] < b[k + 1];
      }
      if k :| 0 <= k < |a| && k < |b| && a[..k] == b[..k] && a[k] < b[k] {
        assert a[1..][..k - 1] == a[..k][1..] && b[1..][..k - 1] == b[..k][1..];
        assert a[1..][k - 1] < b[1..][k - 1];
      }
    }
  }

  /******* Sorting *******/

  ghost function KeySet(members: seq<Member>): set<Text> {
    if members == [] then {} else {members[0].key} + KeySet(members[1..])
  }

  lemma {:induction false} InsertInOrder(m: Member, members: seq<Member>)
    requires MembersInOrder(members) && InOrder(m.value) && m.key !in KeySet(members)
    ensures var r := Insert(m, members);
      && MembersInOrder(r) && KeySet(r) == {m.key} + KeySet(members)
      && r != [] && (r[0] == m || (members != [] && r[0] == members[0]))
  {
    hide InOrder, Less;
    if members == [] || Less(m.key, members[0].key) {
      assert ([m] + members)[1..] == members;
    } else {
      LessTotal(m.key, members[0].key);
      InsertInOrder(m, members[1..]);
      assert ([members[0]] + Insert(m, members[1..]))[1..] == Insert(m, members[1..]);
    }
  }

  lemma {:induction false} InOrderIsSorted(v: Json)
    requires InOrder(v)
    ensures Sorted(v) == v
    decreases v, 1
  {
    match v
    case Arr(items) => ItemsInOrderAreSorted(items);
    case Obj(members) => MembersInOrderAreSorted(members);
    case _ =>
  }

  lemma {:induction false} ItemsInOrderAreSorted(items: seq<Json>)
    requires ItemsInOrder(items)
    ensures SortedItems(items) == items
    decreases items, 0
  {
    if items != [] {
      InOrderIsSorted(items[0]);
      ItemsInOrderAreSorted(items[1..]);
      assert items == [items[0]] + items[1..];
    }
  }

  lemma {:induction false} MembersInOrderAreSorted(members: seq<Member>)
    requires MembersInOrder(members)
    ensures SortedMembers(members) == members
    decreases members, 0
  {
    if members != [] {
      InOrderIsSorted(members[0].value);
      MembersInOrderAreSorted(members[1..]);
      assert members == [members[0]] + members[1..];
    }
  }

  // Sorting what survives a load gives strict key order everywhere.
  lemma {:induction false} SortedInOrder(t: Tree, decodes: Number -> bool)
    requires Loadable(t, decodes) && Wf(t)
    ensures InOrder(Sorted(Denote(t, PointView)))
    decreases t, 1
  {
    match t
    case Array(items) => SortedItemsInOrder(items, decodes);
    case Object(pairs) => SortedPairsInOrder(pairs, decodes, {});
    case _ =>
  }

  lemma {:induction false} SortedItemsInOrder(items: seq<Item>, decodes: Number -> bool)
    requires LoadableItems(items, decodes) && WfItems(items)
    ensures ItemsInOrder(SortedItems(DenoteItems(items, PointView)))
    decreases items, 0
  {
    if items != [] {
      hide InOrder, Loadable, Sorted, Wf, Denote;
      SortedInOrder(items[0].value, decodes);
      SortedItemsInOrder(items[1..], decodes);
      var vs := DenoteItems(items, PointView);
      assert vs[1..] == DenoteItems(items[1..], PointView);
      assert SortedItems(vs)[1..] == SortedItems(vs[1..]);
    }
  }

  lemma {:induction false} SortedPairsInOrder(pairs: seq<Pair>, decodes: Number -> bool, seen: set<Text>)
    requires LoadablePairs(pairs, decodes, seen) && WfPairs(pairs)
    ensures var ms := DenotePairs(pairs, PointView);
      MembersInOrder(SortedMembers(ms)) && KeySet(SortedMembers(ms)) !! seen
    decreases pairs, 0
  {
    if pairs != [] {
      hide InOrder, Loadable, Sorted, Wf, Denote, Points;
      SortedInOrder(pairs[0].value, decodes);
      SortedPairsInOrder(pairs[1..], decodes, seen + {Points(pairs[0].key)});
      var ms := DenotePairs(pairs, PointView);
      assert ms[1..] == DenotePairs(pairs[1..], PointView);
      InsertInOrder(Member(ms[0].key, Sorted(ms[0].value)), SortedMembers(ms[1..]));
    }
  }

  /******* Joining *******/

  lemma {:induction false} JoinTwice(v: Json, decodes: Number -> bool)
    requires PyValue(v, decodes)
    ensures JoinValue(JoinValue(v)) == JoinValue(v) && PyValue(JoinValue(v), decodes)
    decreases v, 1
  {
    hide Join;
    match v
    case Str(s) => JoinJoins(s); JoinedIsFixed(Join(s));
    case Arr(items) => JoinItemsTwice(items, decodes);
    case Obj(members) => JoinMembersTwice(members, decodes);
    case _ =>
  }

  lemma {:induction false} JoinItemsTwice(items: seq<Json>, decodes: Number -> bool)
    requires PyItems(items, decodes)
    ensures JoinItems(JoinItems(items)) == JoinItems(items) && PyItems(JoinItems(items), decodes)
    decreases items, 0
  {
    if items != [] {
      hide JoinValue, PyValue;
      JoinTwice(items[0], decodes);
      JoinItemsTwice(items[1..], decodes);
      assert JoinItems(items)[1..] == JoinItems(items[1..]);
    }
  }

  lemma {:induction false} JoinMembersTwice(members: seq<Member>, decodes: Number -> bool)
    requires PyMembers(members, decodes)
    ensures JoinMembers(JoinMembers(members)) == JoinMembers(members) && PyMembers(JoinMembers(members), decodes)
    decreases members, 0
  {
    if members != [] {
      hide JoinValue, PyValue, Join;
      JoinTwice(members[0].value, decodes);
      JoinJoins(members[0].key);
      JoinedIsFixed(Join(members[0].key));
      JoinMembersTwice(members[1..], decodes);
      assert JoinMembers(members)[1..] == JoinMembers(members[1..]);
    }
  }

  // Sorting keeps a joined value joined.
  lemma {:induction false} SortedStaysJoined(v: Json, decodes: Number -> bool)
    requires JoinValue(v) == v && PyValue(v, decodes)
    ensures JoinValue(Sorted(v)) == Sorted(v) && PyValue(Sorted(v), decodes)
    decreases v, 1
  {
    match v
    case Arr(items) => SortedItemsStayJoined(items, decodes);
    case Obj(members) => SortedMembersStayJoined(members, decodes);
    case _ =>
  }

  lemma {:induction false} SortedItemsStayJoined(items: seq<Json>, decodes: Number -> bool)
    requires JoinItems(items) == items && PyItems(items, decodes)
    ensures JoinItems(SortedItems(items)) == SortedItems(items) && PyItems(SortedItems(items), decodes)
    decreases items, 0
  {
    if items != [] {
      hide JoinValue, Sorted, PyValue;
      assert JoinItems(items)[0] == items[0] && JoinItems(items)[1..] == JoinItems(items[1..]);
      SortedStaysJoined(items[0], decodes);
      SortedItemsStayJoined(items[1..], decodes);
      assert SortedItems(items)[1..] == SortedItems(items[1..]);
    }
  }

  lemma {:induction false} SortedMembersStayJoined(members: seq<Member>, decodes: Number -> bool)
    requires JoinMembers(members) == members && PyMembers(members, decodes)
    ensures var r := SortedMembers(members); JoinMembers(r) == r && PyMembers(r, decodes)
    decreases members, 0
  {
    if members != [] {
      hide JoinValue, Sorted, PyValue, Join;
      assert JoinMembers(members)[0] == members[0] && JoinMembers(members)[1..] == JoinMembers(members[1..]);
      SortedStaysJoined(members[0].value, decodes);
      SortedMembersStayJoined(members[1..], decodes);
      InsertStaysJoined(Member(members[0].key, Sorted(members[0].value)), SortedMembers(members[1..]), decodes);
    }
  }

  lemma {:induction false} InsertStaysJoined(m: Member, members: seq<Member>, decodes: Number -> bool)
    requires JoinMembers(members) == members && PyMembers(members, decodes)
    requires Join(m.key) == m.key && JoinValue(m.value) == m.value && PyText(m.key) && PyValue(m.value, decodes)
    ensures var r := Insert(m, members); JoinMembers(r) == r && PyMembers(r, decodes)
  {
    hide JoinValue, PyValue, Join, Less;
    if members == [] || Less(m.key, members[0].key) {
      assert ([m] + members)[1..] == members;
    } else {
      assert JoinMembers(members)[0] == members[0] && JoinMembers(members)[1..] == JoinMembers(members[1..]);
      InsertStaysJoined(m, members[1..], decodes);
      assert ([members[0]] + Insert(m, members[1..]))[1..] == Insert(m, members[1..]);
    }
  }

  // Strict key order keeps names apart when joining changes nothing.
  lemma {:induction false} JoinedNamesSurvive(v: Json)
    requires JoinValue(v) == v && InOrder(v)
    ensures NamesSurvive(v)
    decreases v, 1
  {
    match v
    case Arr(items) => JoinedItemsSurvive(items);
    case Obj(members) => JoinedMembersSurvive(members, {});
    case _ =>
  }

  lemma {:induction false} JoinedItemsSurvive(items: seq<Json>)
    requires JoinItems(items) == items && ItemsInOrder(items)
    ensures ItemsSurvive(items)
    decreases items, 0
  {
    if items != [] {
      hide JoinValue, InOrder, NamesSurvive;
      assert JoinItems(items)[0] == items[0] && JoinItems(items)[1..] == JoinItems(items[1..]);
      JoinedNamesSurvive(items[0]);
      JoinedItemsSurvive(items[1..]);
    }
  }

  lemma {:induction false} JoinedMembersSurvive(members: seq<Member>, seen: set<Text>)
    requires JoinMembers(members) == members && MembersInOrder(members)
    requires members != [] ==> forall k :: k in seen ==> Less(k, members[0].key)
    ensures MembersSurvive(members, seen)
    decreases members, 0
  {
    if members != [] {
      hide JoinValue, InOrder, NamesSurvive, Join, Less;
      var key := members[0].key;
      assert JoinMembers(members)[0] == members[0] && JoinMembers(members)[1..] == JoinMembers(members[1..]);
      JoinedNamesSurvive(members[0].value);
      LessTotal(key, key);
      assert key !in seen;
      if |members| > 1 {
        forall k | k in seen + {key} ensures Less(k, members[1..][0].key) {
          if k != key {
            LessTransitive(k, key, members[1].key);
          }
        }
      }
      JoinedMembersSurvive(members[1..], seen + {key});
    }
  }

  /******* Round trips *******/

  lemma LoadedFacts(v: Json, decodes: Number -> bool)
    requires PyValue(v, decodes)
    ensures var w := Sorted(JoinValue(v)); JoinValue(w) == w && PyValue(w, decodes)
    ensures NamesSurvive(v) ==> InOrder(Sorted(JoinValue(v)))
  {
    hide Spell, AsciiTree, JoinValue, PyValue, Denote, Wf, Sorted, NamesSurvive, Loadable, InOrder;
    JoinTwice(v, decodes);
    SortedStaysJoined(JoinValue(v), decodes);
    AsciiTreeExact(v, decodes);
    if NamesSurvive(v) {
      SortedInOrder(AsciiTree(v), decodes);
    }
  }

  // A value comes back unchanged exactly when none of its strings and names holds a split surrogate pair.
  lemma RoundTripIdentity(v: Json, decodes: Number -> bool)
    requires PyValue(v, decodes) && InOrder(v)
    ensures Load(Dump(v) + [0x0A], decodes) == Yes(v) <==> JoinValue(v) == v
  {
    hide Spell, AsciiTree, JoinValue, PyValue, Load, Sorted, NamesSurvive, InOrder;
    DumpThenLoad(v, decodes);
    LoadedFacts(v, decodes);
    if JoinValue(v) == v {
      JoinedNamesSurvive(v);
      InOrderIsSorted(v);
    }
  }

  // What was read is dumped again to the text it was read from exactly when joining kept the key order.
  lemma RedumpIsStable(v: Json, decodes: Number -> bool)
    requires PyValue(v, decodes) && NamesSurvive(v)
    ensures Dump(Sorted(JoinValue(v))) == Dump(v) <==> InOrder(JoinValue(v))
  {
    hide Spell, AsciiTree, JoinValue, PyValue, Sorted, NamesSurvive, InOrder;
    LoadedFacts(v, decodes);
    DumpsAlike(Sorted(JoinValue(v)), v, decodes);
    if InOrder(JoinValue(v)) {
      InOrderIsSorted(JoinValue(v));
    }
  }

  /******* A dump is one line of printable ASCII *******/

  lemma PlainConcat(a: Text, b: Text)
    requires Plain(a) && Plain(b)
    ensures Plain(a + b)
  {
  }

  ghost predicate PlainElem(e: Elem) { Plain(SpellElem(e, [])) }

  lemma HexPlain(c: int)
    requires 0 <= c
    ensures PlainElem(HexOf(c))
  {
  }

  lemma AsciiElemPlain(c: int)
    requires 0 <= c <= 0x10FFFF
    ensures forall i :: 0 <= i < |AsciiElem(c)| ==> PlainElem(AsciiElem(c)[i])
  {
    hide HexOf, PlainElem;
    if c >= 0x10000 {
      HexPlain(0xD800 + (c - 0x10000) / 0x400);
      HexPlain(0xDC00 + (c - 0x10000) % 0x400);
    } else {
      HexPlain(c);
      ShortPlain(c);
    }
  }

  lemma ShortPlain(c: int)
    ensures 0x20 <= c <= 0x7E ==> PlainElem(Raw(c)) && PlainElem(Short(c))
    ensures PlainElem(Short(0x62)) && PlainElem(Short(0x74)) && PlainElem(Short(0x6E)) && PlainElem(Short(0x66)) && PlainElem(Short(0x72))
  {
  }

  lemma {:induction false} AsciiElemsPlain(s: Text)
    requires PyText(s)
    ensures forall i :: 0 <= i < |AsciiElems(s)| ==> PlainElem(AsciiElems(s)[i])
  {
    if s != [] {
      hide PlainElem, AsciiElem;
      AsciiElemPlain(s[0]);
      AsciiElemsPlain(s[1..]);
    }
  }

  lemma {:induction false} SpellElemsPlain(elems: seq<Elem>, rest: Text)
    requires Plain(rest) && forall i :: 0 <= i < |elems| ==> PlainElem(elems[i])
    ensures Plain(SpellElems(elems, rest))
  {
    if elems != [] {
      SpellElemsPlain(elems[1..], rest);
      assert PlainElem(elems[0]);
      var more := SpellElems(elems[1..], rest);
      assert SpellElem(elems[0], more) == SpellElem(elems[0], []) + more;
    }
  }

  lemma {:induction false} DumpPlain(v: Json, rest: Text, decodes: Number -> bool)
    requires PyValue(v, decodes) && Plain(rest)
    ensures Plain(Spell(AsciiTree(v), rest))
    decreases v, 1
  {
    hide SpellNumber, SpellElems, AsciiElems, SpellItems, SpellPairs, PlainElem, AsciiItems, AsciiPairs, PyItems, PyMembers;
    match v
    case Num(n) => NumberPlain(n, rest);
    case Str(s) => AsciiElemsPlain(s); SpellElemsPlain(AsciiElems(s), rest);
    case Arr(items) => if items != [] { ItemsPlain([], items, rest, decodes); }
    case Obj(members) => if members != [] { MembersPlain([], members, rest, decodes); }
    case _ =>
  }

  lemma {:induction false} ItemsPlain(before: Text, items: seq<Json>, rest: Text, decodes: Number -> bool)
    requires PyItems(items, decodes) && Plain(rest) && Plain(before)
    ensures Plain(SpellItems(AsciiItems(before, items), rest))
    decreases items, 0
  {
    if items != [] {
      hide Spell, AsciiTree, PyValue;
      var t := AsciiItems(before, items);
      ItemsPlain(SPACE, items[1..], rest, decodes);
      assert t[1..] == AsciiItems(SPACE, items[1..]);
      var end := t[0].after + (if |t| == 1 then [CLOSE_ARRAY] + rest else [COMMA] + SpellItems(t[1..], rest));
      assert Plain(end);
      DumpPlain(items[0], end, decodes);
    }
  }

  lemma {:induction false} MembersPlain(before: Text, members: seq<Member>, rest: Text, decodes: Number -> bool)
    requires PyMembers(members, decodes) && Plain(rest) && Plain(before)
    ensures Plain(SpellPairs(AsciiPairs(before, members), rest))
    decreases members, 0
  {
    if members != [] {
      var t := AsciiPairs(before, members);
      MembersPlain(SPACE, members[1..], rest, decodes);
      assert t[1..] == AsciiPairs(SPACE, members[1..]);
      PairsOf(t, rest);
      assert Plain([CLOSE_OBJECT]) && Plain([COMMA]) && Plain(t[0].left) && Plain([COLON]) && Plain(t[0].right) && Plain([QUOTE]);
      hide Spell, AsciiTree, PyValue, PlainElem, AsciiElems, SpellElems, SpellPairs, Plain;
      var tail := if |t| == 1 then [CLOSE_OBJECT] + rest else [COMMA] + SpellPairs(t[1..], rest);
      PlainConcat(if |t| == 1 then [CLOSE_OBJECT] else [COMMA], if |t| == 1 then rest else SpellPairs(t[1..], rest));
      assert [] + tail == tail;
      DumpPlain(members[0].value, tail, decodes);
      var value := Spell(t[0].value, tail);
      PlainConcat(t[0].right, value);
      PlainConcat([COLON], t[0].right + value);
      PlainConcat(t[0].left, [COLON] + (t[0].right + value));
      AsciiElemsPlain(members[0].key);
      SpellElemsPlain(t[0].key, t[0].left + ([COLON] + (t[0].right + value)));
      PlainConcat([QUOTE], SpellElems(t[0].key, t[0].left + ([COLON] + (t[0].right + value))));
      PlainConcat(before, [QUOTE] + SpellElems(t[0].key, t[0].left + ([COLON] + (t[0].right + value))));
    }
  }
}
