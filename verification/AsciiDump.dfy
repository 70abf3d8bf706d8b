/**
 json.dumps(value, sort_keys=True) and json.loads over whole values, as the recovery log uses them.

 A Python dictionary is modelled by its members in key order: equality of dictionaries ignores the
 order in which they were filled, and so does a dump that sorts its keys.
 */
module AsciiDump {
  import opened Unicode
  import opened JsonValues
  import opened JsonSyntax
  import opened JsonGrammar
  import opened JsonReading
  import opened TwoPass
  import opened AsciiCodec

  const SPACE: Text := [0x20]

  /******* Writing *******/

  // Items are separated by ", " and a name from its value by ": ".
  function AsciiTree(v: Json): Tree
    decreases v, 1
  {
    match v
    case Num(n) => Digits(n)
    case Str(s) => Quoted(AsciiElems(s))
    case Arr(items) => if items == [] then EmptyArray([]) else Array(AsciiItems([], items))
    case Obj(members) => if members == [] then EmptyObject([]) else Object(AsciiPairs([], members))
    case _ => Word(v)
  }

  function AsciiItems(before: Text, items: seq<Json>): seq<Item>
    decreases items, 0
  {
    if items == [] then [] else [Item(before, AsciiTree(items[0]), [])] + AsciiItems(SPACE, items[1..])
  }

  function AsciiPairs(before: Text, members: seq<Member>): seq<Pair>
    decreases members, 0
  {
    if members == [] then []
    else [Pair(before, AsciiElems(members[0].key), [], SPACE, AsciiTree(members[0].value), [])] + AsciiPairs(SPACE, members[1..])
  }

  function Dump(v: Json): Text { Spell(AsciiTree(v), []) }

  /******* Values *******/

  // What a Python value that json.dumps accepts looks like: strings of code points, numbers that have
  // a spelling which decodes, dictionaries in key order.
  ghost predicate PyValue(v: Json, decodes: Number -> bool)
    decreases v, 1
  {
    match v
    case Num(n) => WfNumber(n) && decodes(n)
    case Str(s) => PyText(s)
    case Arr(items) => PyItems(items, decodes)
    case Obj(members) => PyMembers(members, decodes)
    case _ => true
  }

  ghost predicate PyItems(items: seq<Json>, decodes: Number -> bool)
    decreases items, 0
  {
    items == [] || (PyValue(items[0], decodes) && PyItems(items[1..], decodes))
  }

  ghost predicate PyMembers(members: seq<Member>, decodes: Number -> bool)
    decreases members, 0
  {
    members == [] ||
    (PyText(members[0].key) && PyValue(members[0].value, decodes) && PyMembers(members[1..], decodes))
  }

  // Lexicographic order of code points.
  predicate Less(a: Text, b: Text) {
    b != [] && (a == [] || a[0] < b[0] || (a[0] == b[0] && Less(a[1..], b[1..])))
  }

  // Every dictionary is in strict key order.
  predicate InOrder(v: Json)
    decreases v, 1
  {
    match v
    case Arr(items) => ItemsInOrder(items)
    case Obj(members) => MembersInOrder(members)
    case _ => true
  }

  predicate ItemsInOrder(items: seq<Json>)
    decreases items, 0
  {
    items == [] || (InOrder(items[0]) && ItemsInOrder(items[1..]))
  }

  predicate MembersInOrder(members: seq<Member>)
    decreases members, 0
  {
    members == [] ||
    (&& InOrder(members[0].value) && (|members| > 1 ==> Less(members[0].key, members[1].key))
     && MembersInOrder(members[1..]))
  }

  /******* Reading *******/

  // The dictionaries a decoded value holds, in key order.
  function Sorted(v: Json): Json
    decreases v, 1
  {
    match v
    case Arr(items) => Arr(SortedItems(items))
    case Obj(members) => Obj(SortedMembers(members))
    case _ => v
  }

  function SortedItems(items: seq<Json>): seq<Json>
    decreases items, 0
  {
    if items == [] then [] else [Sorted(items[0])] + SortedItems(items[1..])
  }

  function SortedMembers(members: seq<Member>): seq<Member>
    decreases members, 0
  {
    if members == [] then []
    else Insert(Member(members[0].key, Sorted(members[0].value)), SortedMembers(members[1..]))
  }

  function Insert(m: Member, members: seq<Member>): seq<Member> {
    if members == [] || Less(m.key, members[0].key) then [m] + members
    else [members[0]] + Insert(m, members[1..])
  }

  // json.loads with the hook that refuses a repeated name.  No text has more values than characters.
  function Load(text: Text, decodes: Number -> bool): Outcome<Json> {
    match ParseDocument(text, Config(|text|, |text|, Lenient))
    case Bad => No
    case Ok(d, _, _) => if Loadable(d.value, decodes) then Yes(Sorted(Denote(d.value, PointView))) else No
  }

  lemma {:induction false} SizeBound(t: Tree, rest: Text)
    requires Wf(t)
    ensures TreeHeight(t) < TreeCount(t) && TreeCount(t) + |rest| <= |Spell(t, rest)|
    decreases t, 1
  {
    hide SpellItems, SpellPairs, TreeItemsHeight, TreePairsHeight, TreeItemsCount, TreePairsCount;
    match t
    case Array(items) => ItemsBound(items, rest);
    case Object(pairs) => PairsBound(pairs, rest);
    case Quoted(elems) => SpellElemsLonger(elems, rest);
    case _ =>
  }

  lemma {:induction false} SpellElemsLonger(elems: seq<Elem>, rest: Text)
    ensures |SpellElems(elems, rest)| > |rest|
  {
    if elems != [] {
      SpellElemsLonger(elems[1..], rest);
    }
  }

  lemma {:induction false} ItemsBound(items: seq<Item>, rest: Text)
    requires WfItems(items)
    ensures TreeItemsHeight(items) <= TreeItemsCount(items) && TreeItemsCount(items) + |rest| <= |SpellItems(items, rest)|
    decreases items, 0
  {
    if items != [] {
      hide Spell, TreeHeight, TreeCount, Wf;
      var i := items[0];
      ItemsBound(items[1..], rest);
      SizeBound(i.value, i.after + (if |items| == 1 then [CLOSE_ARRAY] + rest else [COMMA] + SpellItems(items[1..], rest)));
      assert |items| == 1 ==> items[1..] == [];
    }
  }

  lemma {:induction false} PairsBound(pairs: seq<Pair>, rest: Text)
    requires WfPairs(pairs)
    ensures TreePairsHeight(pairs) <= TreePairsCount(pairs) && TreePairsCount(pairs) + |rest| <= |SpellPairs(pairs, rest)|
    decreases pairs, 0
  {
    if pairs != [] {
      hide Spell, TreeHeight, TreeCount, Wf, WfElems;
      var p := pairs[0];
      PairsBound(pairs[1..], rest);
      var more := p.after + (if |pairs| == 1 then [CLOSE_OBJECT] + rest else [COMMA] + SpellPairs(pairs[1..], rest));
      SizeBound(p.value, more);
      SpellElemsLonger(p.key, p.left + ([COLON] + (p.right + Spell(p.value, more))));
      assert |pairs| == 1 ==> pairs[1..] == [];
    }
  }

  // The loader reads every JSON text and no other, with the value of its only tree.
  lemma LoadExact(text: Text, decodes: Number -> bool, v: Json)
    ensures Load(text, decodes) == Yes(v) <==>
      exists d :: WfItem(d) && SpellDocument(d) == text && Loadable(d.value, decodes) && v == Sorted(Denote(d.value, PointView))
  {
    hide ParseDocument, Denote, Loadable, Wf, Spell, Sorted;
    var cfg := Config(|text|, |text|, Lenient);
    if Load(text, decodes).Yes? {
      DocumentSound(text, cfg);
    }
    forall d | WfItem(d) && SpellDocument(d) == text
      ensures Load(text, decodes) == if Loadable(d.value, decodes) then Yes(Sorted(Denote(d.value, PointView))) else No
    {
      SizeBound(d.value, d.after);
      DocumentComplete(d, cfg);
    }
  }

  /******* What a round trip does *******/

  // Every pair of surrogates in a string or a name is joined.
  function JoinValue(v: Json): Json
    decreases v, 1
  {
    match v
    case Str(s) => Str(Join(s))
    case Arr(items) => Arr(JoinItems(items))
    case Obj(members) => Obj(JoinMembers(members))
    case _ => v
  }

  function JoinItems(items: seq<Json>): seq<Json>
    decreases items, 0
  {
    if items == [] then [] else [JoinValue(items[0])] + JoinItems(items[1..])
  }

  function JoinMembers(members: seq<Member>): seq<Member>
    decreases members, 0
  {
    if members == [] then []
    else [Member(Join(members[0].key), JoinValue(members[0].value))] + JoinMembers(members[1..])
  }

  // No two names of one dictionary become equal.
  predicate NamesSurvive(v: Json)
    decreases v, 1
  {
    match v
    case Arr(items) => ItemsSurvive(items)
    case Obj(members) => MembersSurvive(members, {})
    case _ => true
  }

  predicate ItemsSurvive(items: seq<Json>)
    decreases items, 0
  {
    items == [] || (NamesSurvive(items[0]) && ItemsSurvive(items[1..]))
  }

  predicate MembersSurvive(members: seq<Member>, seen: set<Text>)
    decreases members, 0
  {
    members == [] ||
    (&& Join(members[0].key) !in seen && NamesSurvive(members[0].value)
     && MembersSurvive(members[1..], seen + {Join(members[0].key)}))
  }

  lemma {:induction false} AsciiTreeExact(v: Json, decodes: Number -> bool)
    requires PyValue(v, decodes)
    ensures var t := AsciiTree(v); Wf(t) && Denote(t, PointView) == JoinValue(v) && Loadable(t, decodes) == NamesSurvive(v)
    decreases v, 1
  {
    hide AsciiElems, Points, Join;
    match v
    case Str(s) => AsciiWf(s); AsciiPoints(s);
    case Arr(items) => AsciiItemsExact([], items, decodes);
    case Obj(members) => AsciiPairsExact([], members, decodes, {});
    case _ =>
  }

  lemma {:induction false} AsciiItemsExact(before: Text, items: seq<Json>, decodes: Number -> bool)
    requires PyItems(items, decodes) && Blanks(before)
    ensures var t := AsciiItems(before, items);
      && WfItems(t) && DenoteItems(t, PointView) == JoinItems(items) && LoadableItems(t, decodes) == ItemsSurvive(items)
      && (items != [] ==> t != [])
    decreases items, 0
  {
    if items != [] {
      hide Wf, Denote, AsciiTree, PyValue, JoinValue, Loadable, NamesSurvive;
      AsciiTreeExact(items[0], decodes);
      AsciiItemsExact(SPACE, items[1..], decodes);
      assert AsciiItems(before, items)[1..] == AsciiItems(SPACE, items[1..]);
    }
  }

  lemma {:induction false} AsciiPairsExact(before: Text, members: seq<Member>, decodes: Number -> bool, seen: set<Text>)
    requires PyMembers(members, decodes) && Blanks(before)
    ensures var t := AsciiPairs(before, members);
      && WfPairs(t) && DenotePairs(t, PointView) == JoinMembers(members)
      && LoadablePairs(t, decodes, seen) == MembersSurvive(members, seen)
      && (members != [] ==> t != [])
    decreases members, 0
  {
    if members != [] {
      hide Wf, Denote, AsciiTree, PyValue, JoinValue, Loadable, NamesSurvive, AsciiElems, Points, Join;
      AsciiWf(members[0].key);
      AsciiPoints(members[0].key);
      AsciiTreeExact(members[0].value, decodes);
      AsciiPairsExact(SPACE, members[1..], decodes, seen + {Join(members[0].key)});
      assert AsciiPairs(before, members)[1..] == AsciiPairs(SPACE, members[1..]);
    }
  }

  lemma {:induction false} AsciiTreeOfJoined(v: Json, decodes: Number -> bool)
    requires PyValue(v, decodes)
    ensures AsciiTree(JoinValue(v)) == AsciiTree(v)
    decreases v, 1
  {
    hide AsciiElems, Join;
    match v
    case Str(s) => AsciiJoin(s);
    case Arr(items) => AsciiItemsOfJoined([], items, decodes);
    case Obj(members) => AsciiPairsOfJoined([], members, decodes);
    case _ =>
  }

  lemma {:induction false} AsciiItemsOfJoined(before: Text, items: seq<Json>, decodes: Number -> bool)
    requires PyItems(items, decodes)
    ensures AsciiItems(before, JoinItems(items)) == AsciiItems(before, items) && |JoinItems(items)| == |items|
    decreases items, 0
  {
    if items != [] {
      hide AsciiTree, PyValue, JoinValue;
      AsciiTreeOfJoined(items[0], decodes);
      AsciiItemsOfJoined(SPACE, items[1..], decodes);
      assert JoinItems(items)[1..] == JoinItems(items[1..]);
    }
  }

  lemma {:induction false} AsciiPairsOfJoined(before: Text, members: seq<Member>, decodes: Number -> bool)
    requires PyMembers(members, decodes)
    ensures AsciiPairs(before, JoinMembers(members)) == AsciiPairs(before, members) && |JoinMembers(members)| == |members|
    decreases members, 0
  {
    if members != [] {
      hide AsciiTree, PyValue, JoinValue, AsciiElems, Join;
      AsciiJoin(members[0].key);
      AsciiTreeOfJoined(members[0].value, decodes);
      AsciiPairsOfJoined(SPACE, members[1..], decodes);
      assert JoinMembers(members)[1..] == JoinMembers(members[1..]);
    }
  }

  lemma DumpIsDocument(v: Json, decodes: Number -> bool)
    requires PyValue(v, decodes)
    ensures var d := Item([], AsciiTree(v), []); WfItem(d) && SpellDocument(d) == Dump(v)
  {
    hide Spell, Wf, AsciiTree, PyValue;
    AsciiTreeExact(v, decodes);
    assert [] + Dump(v) == Dump(v);
  }

  // Two values are dumped alike exactly when they are equal up to joined surrogate pairs.
  lemma DumpsAlike(a: Json, b: Json, decodes: Number -> bool)
    requires PyValue(a, decodes) && PyValue(b, decodes)
    ensures Dump(a) == Dump(b) <==> JoinValue(a) == JoinValue(b)
  {
    hide Spell, AsciiTree, JoinValue, PyValue, Denote, Wf;
    AsciiTreeExact(a, decodes);
    AsciiTreeExact(b, decodes);
    AsciiTreeOfJoined(a, decodes);
    AsciiTreeOfJoined(b, decodes);
    if Dump(a) == Dump(b) {
      DumpIsDocument(a, decodes);
      DumpIsDocument(b, decodes);
      Unambiguous(Item([], AsciiTree(a), []), Item([], AsciiTree(b), []));
    }
  }

  // A dumped value followed by a line feed loads back joined and sorted, unless two names collide.
  lemma DumpThenLoad(v: Json, decodes: Number -> bool)
    requires PyValue(v, decodes)
    ensures Load(Dump(v) + [0x0A], decodes) == if NamesSurvive(v) then Yes(Sorted(JoinValue(v))) else No
  {
    hide Spell, AsciiTree, JoinValue, PyValue, Denote, Wf, Load, Sorted, NamesSurvive, Loadable;
    AsciiTreeExact(v, decodes);
    var d := Item([], AsciiTree(v), [0x0A]);
    SpellAppend(AsciiTree(v), [], [0x0A]);
    assert [] + [0x0A] == [0x0A] && [] + Spell(AsciiTree(v), [0x0A]) == Spell(AsciiTree(v), [0x0A]);
    assert WfItem(d) && SpellDocument(d) == Dump(v) + [0x0A];
    LoadExact(Dump(v) + [0x0A], decodes, Sorted(JoinValue(v)));
    if Load(Dump(v) + [0x0A], decodes).Yes? {
      LoadExact(Dump(v) + [0x0A], decodes, Load(Dump(v) + [0x0A], decodes).value);
      var e :| WfItem(e) && SpellDocument(e) == Dump(v) + [0x0A] && Loadable(e.value, decodes)
        && Load(Dump(v) + [0x0A], decodes).value == Sorted(Denote(e.value, PointView));
      Unambiguous(d, e);
    }
  }

  // What follows a spelling is only ever appended to it.
  lemma {:induction false} SpellAppend(t: Tree, rest: Text, more: Text)
    ensures Spell(t, rest + more) == Spell(t, rest) + more
    decreases t, 1
  {
    hide SpellNumber, SpellElems, SpellItems, SpellPairs, SpellWord;
    match t
    case Word(v) => Regroup(SpellWord(v), rest, more);
    case Digits(n) => NumberAppend(n, rest, more);
    case Quoted(elems) =>
      SpellElemsAppend(elems, rest, more);
      Regroup([QUOTE], SpellElems(elems, rest), more);
    case EmptyArray(gap) => GapAppend(OPEN_ARRAY, gap, CLOSE_ARRAY, rest, more);
    case EmptyObject(gap) => GapAppend(OPEN_OBJECT, gap, CLOSE_OBJECT, rest, more);
    case Array(items) =>
      SpellItemsAppend(items, rest, more);
      Regroup([OPEN_ARRAY], SpellItems(items, rest), more);
    case Object(pairs) =>
      SpellPairsAppend(pairs, rest, more);
      Regroup([OPEN_OBJECT], SpellPairs(pairs, rest), more);
  }

  lemma GapAppend(a: int, gap: Text, b: int, rest: Text, more: Text)
    ensures [a] + (gap + ([b] + (rest + more))) == [a] + (gap + ([b] + rest)) + more
  {
  }

  lemma {:induction false} SpellElemsAppend(elems: seq<Elem>, rest: Text, more: Text)
    ensures SpellElems(elems, rest + more) == SpellElems(elems, rest) + more
  {
    if elems != [] {
      SpellElemsAppend(elems[1..], rest, more);
    }
  }

  lemma Regroup(a: Text, b: Text, c: Text)
    ensures a + (b + c) == (a + b) + c
  {
  }

  lemma ItemsOf(items: seq<Item>, rest: Text)
    requires items != []
    ensures var i, tail := items[0], if |items| == 1 then [CLOSE_ARRAY] + rest else [COMMA] + SpellItems(items[1..], rest);
      SpellItems(items, rest) == i.before + Spell(i.value, i.after + tail)
  {
    hide Spell;
  }

  lemma PairsOf(pairs: seq<Pair>, rest: Text)
    requires pairs != []
    ensures var p, tail := pairs[0], if |pairs| == 1 then [CLOSE_OBJECT] + rest else [COMMA] + SpellPairs(pairs[1..], rest);
      SpellPairs(pairs, rest) ==
      p.before + ([QUOTE] + SpellElems(p.key, p.left + ([COLON] + (p.right + Spell(p.value, p.after + tail)))))
  {
    hide Spell, SpellElems;
  }

  lemma {:induction false} SpellItemsAppend(items: seq<Item>, rest: Text, more: Text)
    ensures SpellItems(items, rest + more) == SpellItems(items, rest) + more
    decreases items, 0
  {
    if items != [] {
      var i := items[0];
      SpellItemsAppend(items[1..], rest, more);
      ItemsOf(items, rest);
      ItemsOf(items, rest + more);
      hide Spell, SpellItems;
      var tail := if |items| == 1 then [CLOSE_ARRAY] + rest else [COMMA] + SpellItems(items[1..], rest);
      Regroup(if |items| == 1 then [CLOSE_ARRAY] else [COMMA], if |items| == 1 then rest else SpellItems(items[1..], rest), more);
      SpellAppend(i.value, i.after + tail, more);
      Regroup(i.after, tail, more);
      Regroup(i.before, Spell(i.value, i.after + tail), more);
    }
  }

  lemma {:induction false} SpellPairsAppend(pairs: seq<Pair>, rest: Text, more: Text)
    ensures SpellPairs(pairs, rest + more) == SpellPairs(pairs, rest) + more
    decreases pairs, 0
  {
    if pairs != [] {
      var p := pairs[0];
      SpellPairsAppend(pairs[1..], rest, more);
      PairsOf(pairs, rest);
      PairsOf(pairs, rest + more);
      hide Spell, SpellPairs, SpellElems;
      var tail := if |pairs| == 1 then [CLOSE_OBJECT] + rest else [COMMA] + SpellPairs(pairs[1..], rest);
      Regroup(if |pairs| == 1 then [CLOSE_OBJECT] else [COMMA], if |pairs| == 1 then rest else SpellPairs(pairs[1..], rest), more);
      Regroup(p.after, tail, more);
      SpellAppend(p.value, p.after + tail, more);
      var value := Spell(p.value, p.after + tail);
      Regroup(p.right, value, more);
      Regroup([COLON], p.right + value, more);
      Regroup(p.left, [COLON] + (p.right + value), more);
      var colon := p.left + ([COLON] + (p.right + value));
      SpellElemsAppend(p.key, colon, more);
      Regroup([QUOTE], SpellElems(p.key, colon), more);
      Regroup(p.before, [QUOTE] + SpellElems(p.key, colon), more);
    }
  }
}
