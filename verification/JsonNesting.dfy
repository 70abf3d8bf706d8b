/**
 The two readers take a text apart as sections 4 and 5 of RFC 8259 put it together: what they answer for an array or
 an object follows from what they answer for its parts.
 */
module JsonNesting {
  import opened Unicode
  import opened JsonValues
  import opened JsonSyntax
  import opened JsonGrammar
  import opened JsonReading
  import opened TwoPass
  import opened AsciiDump
  import opened JsonLexicon

  /******* Readers and trees *******/

  // What the reader demands of a tree besides its size.
  ghost predicate Takes(reader: Reader, t: Tree) {
    match reader
    case OnePass(admits) => Accepts(t, admits)
    case TwoPasses(decodes, safe) => Loadable(t, decodes) && Clean(Denote(t, PointView), safe)
  }

  // At most 64 levels of nesting below the root, and at most 100000 values.
  predicate Small(v: Json) { Height(v) <= 64 && Count(v) <= 100_000 }

  lemma ReadTree(reader: Reader, d: Item)
    requires WfItem(d)
    ensures var v := Denote(d.value, ViewOf(reader));
      Read(reader, SpellDocument(d)) == if Takes(reader, d.value) && Small(v) then Yes(v) else No
  {
    hide Spell, ParseValue, Wf, Denote, Accepts, Loadable, Clean, Height, Count, TreeHeight, TreeCount, Blanks;
    var text := SpellDocument(d);
    DenoteSize(d.value, ViewOf(reader));
    if TreeHeight(d.value) <= MAX_DEPTH && TreeCount(d.value) <= MAX_NODES {
      DocumentComplete(d, SCAN_CONFIG);
    } else if ParseDocument(text, SCAN_CONFIG).Ok? {
      DocumentSound(text, SCAN_CONFIG);
      Unambiguous(d, ParseDocument(text, SCAN_CONFIG).value);
    }
    hide ParseDocument;
    match reader {
      case OnePass(admits) => StrictDocument(text, admits);
      case TwoPasses(decodes, safe) =>
        if ParseDocument(text, SCAN_CONFIG).Ok? {
          ScannedValue(text, decodes, safe);
        }
    }
  }

  // The tree behind an answer.
  lemma TreeOf(reader: Reader, text: Text, v: Json) returns (d: Item)
    requires Read(reader, text) == Yes(v)
    ensures WfItem(d) && SpellDocument(d) == text && Takes(reader, d.value) && v == Denote(d.value, ViewOf(reader))
  {
    hide Spell, ParseDocument, Wf, Denote, Accepts, Loadable, Clean, Blanks;
    if reader.OnePass? {
      StrictDocument(text, reader.admits);
    }
    d := ParseDocument(text, SCAN_CONFIG).value;
    DocumentSound(text, SCAN_CONFIG);
    ReadTree(reader, d);
  }

  /******* Arrays *******/

  // Texts with commas between them and a closing mark behind.
  function Joined(texts: seq<Text>, close: char): Text {
    if texts == [] then []
    else texts[0] + (if |texts| == 1 then [close as int] else [',' as int] + Joined(texts[1..], close))
  }

  ghost predicate Answers(reader: Reader, texts: seq<Text>, vs: seq<Json>) {
    |texts| == |vs| && forall i :: 0 <= i < |texts| ==> Read(reader, texts[i]) == Yes(vs[i])
  }

  ghost predicate TakesItems(reader: Reader, items: seq<Item>) {
    match reader
    case OnePass(admits) => AcceptsItems(items, admits)
    case TwoPasses(decodes, safe) => LoadableItems(items, decodes) && CleanItems(DenoteItems(items, PointView), safe)
  }

  lemma TakesHead(reader: Reader, items: seq<Item>)
    requires items != [] && Takes(reader, items[0].value) && TakesItems(reader, items[1..])
    ensures TakesItems(reader, items)
  {
    hide Accepts, Loadable, Clean, Denote;
    var vs := DenoteItems(items, PointView);
    assert vs[1..] == DenoteItems(items[1..], PointView);
  }

  // The items behind a list of answers.
  lemma {:induction false} ItemsBehind(reader: Reader, texts: seq<Text>, vs: seq<Json>) returns (items: seq<Item>)
    requires Answers(reader, texts, vs)
    ensures |items| == |vs| && WfItems(items) && TakesItems(reader, items) && DenoteItems(items, ViewOf(reader)) == vs
    ensures SpellItems(items, []) == Joined(texts, ']')
    decreases |texts|
  {
    hide Read, Spell, Wf, Denote, Accepts, Loadable, Clean, Blanks;
    if texts == [] {
      items := [];
    } else {
      var d := TreeOf(reader, texts[0], vs[0]);
      var rest := ItemsBehind(reader, texts[1..], vs[1..]);
      items := [d] + rest;
      assert items[1..] == rest && vs == [vs[0]] + vs[1..];
      TakesHead(reader, items);
      ItemsOf(items, []);
      hide TakesItems, WfItem, SpellItems, DenoteItems;
      var tail := if |items| == 1 then [CLOSE_ARRAY] else [COMMA] + SpellItems(rest, []);
      assert [CLOSE_ARRAY] + [] == [CLOSE_ARRAY];
      SpellAppend(d.value, d.after, tail);
      Regroup(d.before, Spell(d.value, d.after), tail);
    }
  }

  // Texts of values between brackets, separated by commas, are read as the array of those values.
  lemma ArrayMeans(reader: Reader, texts: seq<Text>, vs: seq<Json>)
    requires Answers(reader, texts, vs) && texts != []
    ensures Read(reader, ['[' as int] + Joined(texts, ']')) == if Small(Arr(vs)) then Yes(Arr(vs)) else No
  {
    hide Read, Joined, SpellItems, DenoteItems, WfItems, AcceptsItems, LoadableItems, CleanItems, Small;
    var items := ItemsBehind(reader, texts, vs);
    var d := Item([], Array(items), []);
    var text := ['[' as int] + Joined(texts, ']');
    assert SpellDocument(d) == text by {
      assert [] + text == text;
    }
    ReadTree(reader, d);
  }

  /******* Objects *******/

  // "name": value
  function Membered(names: seq<Text>, texts: seq<Text>): seq<Text>
    requires |names| == |texts|
  {
    seq(|names|, i requires 0 <= i < |names| => InQuotes(names[i]) + ([':' as int] + texts[i]))
  }

  function MembersOf(keys: seq<Text>, vs: seq<Json>): seq<Member>
    requires |keys| == |vs|
  {
    seq(|keys|, i requires 0 <= i < |keys| => Member(keys[i], vs[i]))
  }

  ghost predicate AreStrings(reader: Reader, names: seq<Text>, keys: seq<Text>) {
    |names| == |keys| && forall i :: 0 <= i < |names| ==> IsString(reader, names[i], keys[i])
  }

  // No name repeats one before it.
  ghost predicate Fresh(keys: seq<Text>, seen: set<Text>) {
    forall i :: 0 <= i < |keys| ==> keys[i] !in seen && forall j :: 0 <= j < i ==> keys[j] != keys[i]
  }

  lemma FreshHead(keys: seq<Text>, seen: set<Text>)
    requires keys != []
    ensures Fresh(keys, seen) <==> keys[0] !in seen && Fresh(keys[1..], seen + {keys[0]})
  {
    var rest := keys[1..];
    if Fresh(keys, seen) {
      forall i | 0 <= i < |rest| ensures rest[i] !in seen + {keys[0]} && forall j :: 0 <= j < i ==> rest[j] != rest[i] {
        assert rest[i] == keys[i + 1];
        assert forall j :: 0 <= j < i ==> rest[j] == keys[j + 1];
      }
    }
    if keys[0] !in seen && Fresh(rest, seen + {keys[0]}) {
      forall i | 0 <= i < |keys| ensures keys[i] !in seen && forall j :: 0 <= j < i ==> keys[j] != keys[i] {
        assert i > 0 ==> keys[i] == rest[i - 1];
        assert forall j :: 0 < j < i ==> keys[j] == rest[j - 1];
      }
    }
  }

  ghost predicate TakesPairs(reader: Reader, pairs: seq<Pair>, seen: set<Text>) {
    match reader
    case OnePass(admits) => AcceptsPairs(pairs, admits, seen)
    case TwoPasses(decodes, safe) => LoadablePairs(pairs, decodes, seen) && CleanMembers(DenotePairs(pairs, PointView), safe)
  }

  lemma TakesFirst(reader: Reader, pairs: seq<Pair>, seen: set<Text>)
    requires pairs != [] && Sound(reader, pairs[0].key) && Takes(reader, pairs[0].value)
    ensures var key := StringOf(pairs[0].key, ViewOf(reader));
      TakesPairs(reader, pairs, seen) <==> key !in seen && TakesPairs(reader, pairs[1..], seen + {key})
  {
    hide Accepts, Loadable, Clean, Denote, Paired, Points, Codes, NoSurrogate;
    var ms := DenotePairs(pairs, PointView);
    assert ms[1..] == DenotePairs(pairs[1..], PointView);
  }

  // A member with its name, as the grammar spells it.
  lemma PairSpelled(p: Pair, name: Text, d: Item, tail: Text)
    requires p == Pair([], p.key, [], d.before, d.value, d.after) && name == SpellPart(p.key, [])
    ensures InQuotes(name) + ([COLON] + SpellDocument(d)) + tail == SpellName(p, Spell(p.value, p.after + tail))
  {
    hide SpellElems, SpellPart, Spell;
    SpellAppend(d.value, d.after, tail);
    var value := Spell(d.value, d.after + tail);
    var x := [] + ([COLON] + (d.before + value));
    PartQuoted(p.key, x);
    PartAppend(p.key, [QUOTE] + x);
    assert x == [COLON] + (d.before + value);
    assert SpellDocument(d) + tail == d.before + value;
    assert InQuotes(name) + ([COLON] + SpellDocument(d)) + tail == [QUOTE] + (name + ([QUOTE] + ([COLON] + (SpellDocument(d) + tail))));
  }

  function NamedPair(key: seq<Elem>, d: Item): Pair { Pair([], key, [], d.before, d.value, d.after) }

  lemma OneMorePair(reader: Reader, key: seq<Elem>, d: Item, rest: seq<Pair>, keys: seq<Text>, vs: seq<Json>, seen: set<Text>)
    requires |keys| == |vs| > 0 && WfElems(key) && Sound(reader, key) && StringOf(key, ViewOf(reader)) == keys[0]
    requires WfItem(d) && Takes(reader, d.value) && Denote(d.value, ViewOf(reader)) == vs[0]
    requires WfPairs(rest) && DenotePairs(rest, ViewOf(reader)) == MembersOf(keys[1..], vs[1..])
    requires TakesPairs(reader, rest, seen + {keys[0]}) <==> Fresh(keys[1..], seen + {keys[0]})
    ensures var pairs := [NamedPair(key, d)] + rest;
      && WfPairs(pairs) && DenotePairs(pairs, ViewOf(reader)) == MembersOf(keys, vs)
      && (TakesPairs(reader, pairs, seen) <==> Fresh(keys, seen))
  {
    hide Wf, Denote, Takes, Sound, StringOf, WfElems, MembersOf;
    var pairs := [NamedPair(key, d)] + rest;
    assert pairs[0] == NamedPair(key, d) && pairs[1..] == rest && Blanks([]);
    TakesFirst(reader, pairs, seen);
    FreshHead(keys, seen);
    hide Fresh, TakesPairs, Blanks;
    MembersHead(keys, vs);
  }

  lemma MembersHead(keys: seq<Text>, vs: seq<Json>)
    requires |keys| == |vs| > 0
    ensures MembersOf(keys, vs) == [Member(keys[0], vs[0])] + MembersOf(keys[1..], vs[1..])
  {
  }

  // The pairs behind a list of names and answers: they are taken exactly when no name is repeated.
  lemma {:induction false} PairsBehind(reader: Reader, names: seq<Text>, keys: seq<Text>, texts: seq<Text>, vs: seq<Json>,
                                       seen: set<Text>) returns (pairs: seq<Pair>)
    requires AreStrings(reader, names, keys) && Answers(reader, texts, vs) && |names| == |texts|
    ensures |pairs| == |vs| && WfPairs(pairs) && DenotePairs(pairs, ViewOf(reader)) == MembersOf(keys, vs)
    ensures TakesPairs(reader, pairs, seen) <==> Fresh(keys, seen)
    ensures SpellPairs(pairs, []) == Joined(Membered(names, texts), '}')
    decreases |texts|
  {
    hide Read, IsString, Spell, Wf, Denote, Accepts, Loadable, Clean, Blanks, Sound, StringOf;
    if texts == [] {
      pairs := [];
    } else {
      hide WfElems, WfItem, WfPairs, Takes, TakesPairs, Fresh, DenotePairs, MembersOf, SpellPairs, Joined, Membered, SpellDocument, SpellPart;
      var d := TreeOf(reader, texts[0], vs[0]);
      var key := Around(reader, names[0], keys[0]);
      var rest := PairsBehind(reader, names[1..], keys[1..], texts[1..], vs[1..], seen + {keys[0]});
      pairs := [NamedPair(key, d)] + rest;
      OneMorePair(reader, key, d, rest, keys, vs, seen);
      PairsJoin(pairs, NamedPair(key, d), rest, names, texts, d);
    }
  }

  lemma PairsJoin(pairs: seq<Pair>, p: Pair, rest: seq<Pair>, names: seq<Text>, texts: seq<Text>, d: Item)
    requires pairs == [p] + rest && |names| == |texts| == |pairs| && SpellDocument(d) == texts[0]
    requires p == Pair([], p.key, [], d.before, d.value, d.after) && names[0] == SpellPart(p.key, [])
    requires SpellPairs(rest, []) == Joined(Membered(names[1..], texts[1..]), '}')
    ensures SpellPairs(pairs, []) == Joined(Membered(names, texts), '}')
  {
    hide Spell, SpellName, SpellDocument, SpellPart;
    var tail := if |pairs| == 1 then [CLOSE_OBJECT] else [COMMA] + SpellPairs(rest, []);
    PairSpelled(p, names[0], d, tail);
    var all := Membered(names, texts);
    assert all[1..] == Membered(names[1..], texts[1..]);
    assert pairs[1..] == rest && [CLOSE_OBJECT] + [] == [CLOSE_OBJECT];
    var s := SpellName(p, Spell(p.value, p.after + tail));
    assert [] + s == s;
    assert all[0] + tail == s;
  }

  // Names and texts of values, each pair with a colon, between braces and separated by commas, are read as the object
  // with those members, unless two names are the same string.
  lemma ObjectMeans(reader: Reader, names: seq<Text>, keys: seq<Text>, texts: seq<Text>, vs: seq<Json>)
    requires AreStrings(reader, names, keys) && Answers(reader, texts, vs) && |names| == |texts| > 0
    ensures var v := Obj(MembersOf(keys, vs));
      Read(reader, ['{' as int] + Joined(Membered(names, texts), '}')) ==
      if (forall i, j :: 0 <= i < j < |keys| ==> keys[i] != keys[j]) && Small(v) then Yes(v) else No
  {
    hide Read, Joined, Membered, SpellPairs, DenotePairs, WfPairs, AcceptsPairs, LoadablePairs, CleanMembers, Small, IsString;
    var pairs := PairsBehind(reader, names, keys, texts, vs, {});
    var d := Item([], Object(pairs), []);
    var text := ['{' as int] + Joined(Membered(names, texts), '}');
    assert SpellDocument(d) == text by {
      assert [] + text == text;
    }
    ReadTree(reader, d);
    assert Fresh(keys, {}) <==> forall i, j :: 0 <= i < j < |keys| ==> keys[i] != keys[j];
  }
}
