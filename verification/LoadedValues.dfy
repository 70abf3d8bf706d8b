/**
 Whatever json.loads returns can be dumped again: its strings are code points and its numbers decode.
 */
module LoadedValues {
  import opened Unicode
  import opened JsonValues
  import opened JsonSyntax
  import opened JsonGrammar
  import opened JsonReading
  import opened TwoPass
  import opened AsciiCodec
  import opened AsciiDump

  lemma PyTail(a: Text, b: Text)
    requires PyText(a + b)
    ensures PyText(a) && PyText(b)
  {
    forall i | 0 <= i < |a| ensures 0 <= a[i] <= 0x10FFFF {
      assert (a + b)[i] == a[i];
    }
    forall i | 0 <= i < |b| ensures 0 <= b[i] <= 0x10FFFF {
      assert (a + b)[|a| + i] == b[i];
    }
  }

  lemma {:induction false} ElemsRange(elems: seq<Elem>, rest: Text)
    requires WfElems(elems) && PyText(SpellElems(elems, rest))
    ensures PyText(rest) && forall i :: 0 <= i < |elems| ==> 0 <= Code(elems[i]) <= 0x10FFFF
  {
    hide Code, WfElem, PyText;
    if elems == [] {
      PyTail([QUOTE], rest);
    } else {
      var more := SpellElems(elems[1..], rest);
      assert SpellElem(elems[0], more) == SpellElem(elems[0], []) + more;
      PyTail(SpellElem(elems[0], []), more);
      ElemsRange(elems[1..], rest);
      RawRange(elems[0]);
      if !elems[0].Raw? {
        CodeRange(elems[0]);
      }
    }
  }

  lemma RawRange(e: Elem)
    requires PyText(SpellElem(e, [])) && WfElem(e)
    ensures e.Raw? ==> 0 <= Code(e) <= 0x10FFFF
  {
    if e.Raw? {
      assert SpellElem(e, [])[0] == e.c;
    }
  }

  lemma {:induction false} PointsRange(elems: seq<Elem>)
    requires forall i :: 0 <= i < |elems| ==> 0 <= Code(elems[i]) <= 0x10FFFF
    ensures PyText(Points(elems))
    decreases |elems|
  {
    hide Code;
    if elems == [] {
    } else if JoinsNext(elems) {
      PointsRange(elems[2..]);
    } else {
      PointsRange(elems[1..]);
    }
  }

  lemma {:induction false} DenotedIsPy(t: Tree, rest: Text, decodes: Number -> bool)
    requires Wf(t) && Loadable(t, decodes) && PyText(Spell(t, rest))
    ensures PyValue(Denote(t, PointView), decodes) && PyText(rest)
    decreases t, 1
  {
    hide PyText, SpellElems, SpellItems, SpellPairs, Points, SpellNumber, SpellWord, WfNumber;
    match t
    case Word(v) => PyTail(SpellWord(v), rest);
    case Digits(n) =>
      assert [] + rest == rest;
      NumberAppend(n, [], rest);
      PyTail(SpellNumber(n, []), rest);
    case Quoted(elems) =>
      PyTail([QUOTE], SpellElems(elems, rest));
      ElemsRange(elems, rest);
      PointsRange(elems);
    case EmptyArray(gap) => PyEnd(OPEN_ARRAY, gap, CLOSE_ARRAY, rest);
    case EmptyObject(gap) => PyEnd(OPEN_OBJECT, gap, CLOSE_OBJECT, rest);
    case Array(items) =>
      PyTail([OPEN_ARRAY], SpellItems(items, rest));
      DenotedItemsArePy(items, rest, decodes);
    case Object(pairs) =>
      PyTail([OPEN_OBJECT], SpellPairs(pairs, rest));
      DenotedPairsArePy(pairs, rest, decodes, {});
  }

  lemma PyEnd(a: int, gap: Text, b: int, rest: Text)
    requires PyText([a] + (gap + ([b] + rest)))
    ensures PyText(rest)
  {
    PyTail([a], gap + ([b] + rest));
    PyTail(gap, [b] + rest);
    PyTail([b], rest);
  }

  lemma {:induction false} DenotedItemsArePy(items: seq<Item>, rest: Text, decodes: Number -> bool)
    requires WfItems(items) && LoadableItems(items, decodes) && PyText(SpellItems(items, rest))
    ensures PyItems(DenoteItems(items, PointView), decodes) && PyText(rest)
    decreases items, 0
  {
    if items != [] {
      hide PyText, Spell, Wf, Loadable, PyValue, Denote;
      var i := items[0];
      var end := if |items| == 1 then [CLOSE_ARRAY] + rest else [COMMA] + SpellItems(items[1..], rest);
      PyTail(i.before, Spell(i.value, i.after + end));
      DenotedIsPy(i.value, i.after + end, decodes);
      PyTail(i.after, end);
      if |items| == 1 {
        PyTail([CLOSE_ARRAY], rest);
        assert items[1..] == [];
      } else {
        PyTail([COMMA], SpellItems(items[1..], rest));
        DenotedItemsArePy(items[1..], rest, decodes);
      }
      assert DenoteItems(items, PointView)[1..] == DenoteItems(items[1..], PointView);
    }
  }

  lemma {:induction false} DenotedPairsArePy(pairs: seq<Pair>, rest: Text, decodes: Number -> bool, seen: set<Text>)
    requires WfPairs(pairs) && LoadablePairs(pairs, decodes, seen) && PyText(SpellPairs(pairs, rest))
    ensures PyMembers(DenotePairs(pairs, PointView), decodes) && PyText(rest)
    decreases pairs, 0
  {
    if pairs != [] {
      hide PyText, Spell, Wf, Loadable, PyValue, Denote, SpellElems, WfElems, Points;
      var p := pairs[0];
      var end := if |pairs| == 1 then [CLOSE_OBJECT] + rest else [COMMA] + SpellPairs(pairs[1..], rest);
      var value := Spell(p.value, p.after + end);
      var colon := p.left + ([COLON] + (p.right + value));
      PyTail(p.before, [QUOTE] + SpellElems(p.key, colon));
      PyTail([QUOTE], SpellElems(p.key, colon));
      ElemsRange(p.key, colon);
      PointsRange(p.key);
      PyTail(p.left, [COLON] + (p.right + value));
      PyTail([COLON], p.right + value);
      PyTail(p.right, value);
      DenotedIsPy(p.value, p.after + end, decodes);
      PyTail(p.after, end);
      if |pairs| == 1 {
        PyTail([CLOSE_OBJECT], rest);
        assert pairs[1..] == [];
      } else {
        PyTail([COMMA], SpellPairs(pairs[1..], rest));
        DenotedPairsArePy(pairs[1..], rest, decodes, seen + {Points(p.key)});
      }
      assert DenotePairs(pairs, PointView)[1..] == DenotePairs(pairs[1..], PointView);
    }
  }

  lemma {:induction false} SortedIsPy(v: Json, decodes: Number -> bool)
    requires PyValue(v, decodes)
    ensures PyValue(Sorted(v), decodes)
    decreases v, 1
  {
    match v
    case Arr(items) => SortedItemsArePy(items, decodes);
    case Obj(members) => SortedMembersArePy(members, decodes);
    case _ =>
  }

  lemma {:induction false} SortedItemsArePy(items: seq<Json>, decodes: Number -> bool)
    requires PyItems(items, decodes)
    ensures PyItems(SortedItems(items), decodes)
    decreases items, 0
  {
    if items != [] {
      hide PyValue, Sorted;
      SortedIsPy(items[0], decodes);
      SortedItemsArePy(items[1..], decodes);
      assert SortedItems(items)[1..] == SortedItems(items[1..]);
    }
  }

  lemma {:induction false} SortedMembersArePy(members: seq<Member>, decodes: Number -> bool)
    requires PyMembers(members, decodes)
    ensures PyMembers(SortedMembers(members), decodes)
    decreases members, 0
  {
    if members != [] {
      hide PyValue, Sorted;
      SortedIsPy(members[0].value, decodes);
      SortedMembersArePy(members[1..], decodes);
      InsertIsPy(Member(members[0].key, Sorted(members[0].value)), SortedMembers(members[1..]), decodes);
    }
  }

  lemma {:induction false} InsertIsPy(m: Member, members: seq<Member>, decodes: Number -> bool)
    requires PyMembers(members, decodes) && PyText(m.key) && PyValue(m.value, decodes)
    ensures PyMembers(Insert(m, members), decodes)
  {
    hide PyValue, Less, PyText;
    if members == [] || Less(m.key, members[0].key) {
      assert ([m] + members)[1..] == members;
    } else {
      InsertIsPy(m, members[1..], decodes);
      assert ([members[0]] + Insert(m, members[1..]))[1..] == Insert(m, members[1..]);
    }
  }

  lemma LoadIsPy(text: Text, decodes: Number -> bool)
    requires PyText(text)
    ensures Load(text, decodes).Yes? ==> PyValue(Load(text, decodes).value, decodes)
  {
    hide ParseDocument, PyText, Spell, Wf, Loadable, PyValue, Denote, Sorted;
    if Load(text, decodes).Yes? {
      var cfg := Config(|text|, |text|, Lenient);
      var d := ParseDocument(text, cfg).value;
      DocumentSound(text, cfg);
      PyTail(d.before, Spell(d.value, d.after));
      DenotedIsPy(d.value, d.after, decodes);
      SortedIsPy(Denote(d.value, PointView), decodes);
    }
  }
}
