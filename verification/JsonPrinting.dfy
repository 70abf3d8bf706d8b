/**
 The compact serialisation of a value with the standard escapes, as JSON.stringify and
 json.dumps(ensure_ascii=False, separators=(",", ":")) write it, and the round trips.

 The two serialisers escape alike and spell numbers differently: 0.00001 is 1e-05 in Python.  `Print`
 keeps the spelling of every number; a serialiser first respells them with its own writer.
 */
module JsonPrinting {
  import opened Unicode
  import opened JsonValues
  import opened JsonSyntax
  import opened JsonGrammar
  import opened JsonReading
  import opened TwoPass

  function HexLetter(d: int): int { if d < 10 then 0x30 + d else 0x61 + (d - 10) }

  // Quotes, backslashes and control codes are escaped; everything else is literal.
  function CanonicalElem(c: int): Elem {
    if c == QUOTE || c == BACKSLASH then Short(c)
    else if c == 0x08 then Short(0x62)
    else if c == 0x09 then Short(0x74)
    else if c == 0x0A then Short(0x6E)
    else if c == 0x0C then Short(0x66)
    else if c == 0x0D then Short(0x72)
    else if c < 0x20 then Hex(0x30, 0x30, HexLetter(c / 16), HexLetter(c % 16))
    else Raw(c)
  }

  function CanonicalElems(s: Text): seq<Elem> {
    if s == [] then [] else [CanonicalElem(s[0])] + CanonicalElems(s[1..])
  }

  function Canonical(v: Json): Tree
    decreases v, 1
  {
    match v
    case Num(n) => Digits(n)
    case Str(s) => Quoted(CanonicalElems(s))
    case Arr(items) => if items == [] then EmptyArray([]) else Array(CanonicalItems(items))
    case Obj(members) => if members == [] then EmptyObject([]) else Object(CanonicalPairs(members))
    case _ => Word(v)
  }

  function CanonicalItems(items: seq<Json>): seq<Item>
    decreases items, 0
  {
    if items == [] then [] else [Item([], Canonical(items[0]), [])] + CanonicalItems(items[1..])
  }

  function CanonicalPairs(members: seq<Member>): seq<Pair>
    decreases members, 0
  {
    if members == [] then []
    else [Pair([], CanonicalElems(members[0].key), [], [], Canonical(members[0].value), [])] + CanonicalPairs(members[1..])
  }

  function Print(v: Json): Text { Spell(Canonical(v), []) }

  // The spelling of a first item.
  lemma ItemsStep(items: seq<Json>, rest: Text)
    requires items != []
    ensures SpellItems(CanonicalItems(items), rest) == Spell(Canonical(items[0]),
      if |items| == 1 then [CLOSE_ARRAY] + rest else [COMMA] + SpellItems(CanonicalItems(items[1..]), rest))
  {
    hide Spell, Canonical;
    var t := CanonicalItems(items);
    assert t[1..] == CanonicalItems(items[1..]);
    assert |items| == 1 <==> |t| == 1;
    var end := if |items| == 1 then [CLOSE_ARRAY] + rest else [COMMA] + SpellItems(t[1..], rest);
    assert [] + end == end;
    var s := Spell(Canonical(items[0]), end);
    assert [] + s == s;
  }

  lemma MembersStep(members: seq<Member>, rest: Text)
    requires members != []
    ensures SpellPairs(CanonicalPairs(members), rest) ==
      [QUOTE] + SpellElems(CanonicalElems(members[0].key), [COLON] + Spell(Canonical(members[0].value),
        if |members| == 1 then [CLOSE_OBJECT] + rest else [COMMA] + SpellPairs(CanonicalPairs(members[1..]), rest)))
  {
    hide Spell, Canonical, CanonicalElems, SpellElems;
    var t := CanonicalPairs(members);
    assert t[1..] == CanonicalPairs(members[1..]);
    assert |members| == 1 <==> |t| == 1;
    var end := if |members| == 1 then [CLOSE_OBJECT] + rest else [COMMA] + SpellPairs(t[1..], rest);
    assert [] + end == end;
    var s := Spell(Canonical(members[0].value), end);
    assert [] + s == s && [] + ([COLON] + s) == [COLON] + s;
    assert [] + SpellName(t[0], s) == SpellName(t[0], s);
  }

  /******* A value is what its canonical tree stands for *******/

  // Every code of a string is non-negative and every number is a JSON number.
  ghost predicate Printable(v: Json)
    decreases v, 1
  {
    match v
    case Num(n) => WfNumber(n)
    case Str(s) => Natural(s)
    case Arr(items) => PrintableItems(items)
    case Obj(members) => PrintableMembers(members)
    case _ => true
  }

  ghost predicate PrintableItems(items: seq<Json>)
    decreases items, 0
  {
    items == [] || (Printable(items[0]) && PrintableItems(items[1..]))
  }

  ghost predicate PrintableMembers(members: seq<Member>)
    decreases members, 0
  {
    members == [] || (Natural(members[0].key) && Printable(members[0].value) && PrintableMembers(members[1..]))
  }

  ghost predicate Natural(s: Text) { forall i :: 0 <= i < |s| ==> 0 <= s[i] }

  lemma CanonicalElemExact(c: int)
    requires 0 <= c
    ensures WfElem(CanonicalElem(c)) && Code(CanonicalElem(c)) == c
    ensures CanonicalElem(c).Hex? ==> c < 0x20
  {
    if CanonicalElem(c).Hex? {
      assert HexValue(HexLetter(c / 16)) == c / 16 && HexValue(HexLetter(c % 16)) == c % 16;
    }
  }

  lemma {:induction false} CanonicalString(s: Text, view: View)
    requires Natural(s)
    ensures WfElems(CanonicalElems(s)) && StringOf(CanonicalElems(s), view) == s
    ensures Paired(CanonicalElems(s)) == WellFormedUnits(s)
  {
    CanonicalCodes(s);
    CanonicalPoints(s);
    CanonicalPaired(s);
  }

  lemma {:induction false} CanonicalCodes(s: Text)
    requires Natural(s)
    ensures WfElems(CanonicalElems(s)) && Codes(CanonicalElems(s)) == s
  {
    if s != [] {
      hide Code, CanonicalElem;
      CanonicalElemExact(s[0]);
      CanonicalCodes(s[1..]);
      assert CanonicalElems(s)[1..] == CanonicalElems(s[1..]);
    }
  }

  lemma {:induction false} CanonicalPoints(s: Text)
    requires Natural(s)
    ensures Points(CanonicalElems(s)) == s
  {
    if s != [] {
      hide Code, CanonicalElem;
      CanonicalElemExact(s[0]);
      CanonicalPoints(s[1..]);
      assert CanonicalElems(s)[1..] == CanonicalElems(s[1..]);
      assert !JoinsNext(CanonicalElems(s));
    }
  }

  lemma {:induction false} CanonicalPaired(s: Text)
    requires Natural(s)
    ensures Paired(CanonicalElems(s)) == WellFormedUnits(s)
    decreases |s|
  {
    if s != [] {
      hide Code, CanonicalElem;
      var es := CanonicalElems(s);
      CanonicalElemExact(s[0]);
      assert es[1..] == CanonicalElems(s[1..]);
      if !High(s[0]) {
        CanonicalPaired(s[1..]);
      } else if |s| > 1 {
        CanonicalElemExact(s[1]);
        assert es[1] == CanonicalElem(s[1]) by { assert es[1] == es[1..][0]; }
        assert s[1..][1..] == s[2..] && es[2..] == es[1..][1..] == CanonicalElems(s[2..]);
        CanonicalPaired(s[2..]);
      } else {
        assert s[1..] == [];
      }
    }
  }

  lemma {:induction false} CanonicalExact(v: Json, view: View)
    requires Printable(v)
    ensures Wf(Canonical(v)) && Denote(Canonical(v), view) == v
    decreases v, 1
  {
    hide CanonicalElems, StringOf;
    match v
    case Str(s) => CanonicalString(s, view);
    case Arr(items) => CanonicalItemsExact(items, view);
    case Obj(members) => CanonicalMembersExact(members, view);
    case _ =>
  }

  lemma {:induction false} CanonicalItemsExact(items: seq<Json>, view: View)
    requires PrintableItems(items)
    ensures var t := CanonicalItems(items); WfItems(t) && DenoteItems(t, view) == items && (items != [] ==> t != [])
    decreases items, 0
  {
    if items != [] {
      hide Wf, Denote, Canonical, Printable;
      CanonicalExact(items[0], view);
      CanonicalItemsExact(items[1..], view);
      assert CanonicalItems(items)[1..] == CanonicalItems(items[1..]);
      assert items == [items[0]] + items[1..];
    }
  }

  lemma {:induction false} CanonicalMembersExact(members: seq<Member>, view: View)
    requires PrintableMembers(members)
    ensures var t := CanonicalPairs(members);
      WfPairs(t) && DenotePairs(t, view) == members && (members != [] ==> t != [])
    decreases members, 0
  {
    if members != [] {
      hide Wf, Denote, Canonical, Printable, CanonicalElems, StringOf;
      CanonicalString(members[0].key, view);
      CanonicalExact(members[0].value, view);
      CanonicalMembersExact(members[1..], view);
      assert CanonicalPairs(members)[1..] == CanonicalPairs(members[1..]);
      assert members == [members[0]] + members[1..];
    }
  }

  /******* Round trips *******/

  // What makes a value acceptable to the strict reader besides its size.
  ghost predicate Acceptable(v: Json, admits: Number -> bool)
    decreases v, 1
  {
    match v
    case Num(n) => admits(n)
    case Str(s) => WellFormedUnits(s)
    case Arr(items) => AcceptableItems(items, admits)
    case Obj(members) => AcceptableMembers(members, admits, {})
    case _ => true
  }

  ghost predicate AcceptableItems(items: seq<Json>, admits: Number -> bool)
    decreases items, 0
  {
    items == [] || (Acceptable(items[0], admits) && AcceptableItems(items[1..], admits))
  }

  ghost predicate AcceptableMembers(members: seq<Member>, admits: Number -> bool, seen: set<Text>)
    decreases members, 0
  {
    members == [] ||
    (&& WellFormedUnits(members[0].key) && members[0].key !in seen && Acceptable(members[0].value, admits)
     && AcceptableMembers(members[1..], admits, seen + {members[0].key}))
  }

  lemma {:induction false} CanonicalAccepted(v: Json, admits: Number -> bool)
    requires Printable(v)
    ensures Accepts(Canonical(v), admits) == Acceptable(v, admits)
    decreases v, 1
  {
    hide CanonicalElems, Paired, WellFormedUnits;
    match v
    case Str(s) => CanonicalString(s, UnitView);
    case Arr(items) => CanonicalItemsAccepted(items, admits);
    case Obj(members) => CanonicalPairsAccepted(members, admits, {});
    case _ =>
  }

  lemma {:induction false} CanonicalItemsAccepted(items: seq<Json>, admits: Number -> bool)
    requires PrintableItems(items)
    ensures AcceptsItems(CanonicalItems(items), admits) == AcceptableItems(items, admits)
    decreases items, 0
  {
    if items != [] {
      hide Canonical, Accepts, Acceptable, Printable;
      CanonicalAccepted(items[0], admits);
      CanonicalItemsAccepted(items[1..], admits);
      assert CanonicalItems(items)[1..] == CanonicalItems(items[1..]);
    }
  }

  lemma {:induction false} CanonicalPairsAccepted(members: seq<Member>, admits: Number -> bool, seen: set<Text>)
    requires PrintableMembers(members)
    ensures AcceptsPairs(CanonicalPairs(members), admits, seen) == AcceptableMembers(members, admits, seen)
    decreases members, 0
  {
    if members != [] {
      hide Canonical, Accepts, Acceptable, Printable, CanonicalElems, Paired, Codes, WellFormedUnits;
      CanonicalCodes(members[0].key);
      CanonicalPaired(members[0].key);
      CanonicalAccepted(members[0].value, admits);
      CanonicalPairsAccepted(members[1..], admits, seen + {members[0].key});
      assert CanonicalPairs(members)[1..] == CanonicalPairs(members[1..]);
    }
  }

  lemma PrintIsDocument(v: Json)
    ensures Print(v) == SpellDocument(Item([], Canonical(v), []))
  {
    assert [] + Print(v) == Print(v);
  }

  // The strict reader gives back every printable value it is allowed to accept, and refuses every other.
  lemma PrintThenRead(v: Json, admits: Number -> bool)
    requires Printable(v)
    ensures StrictRead(Print(v), admits) ==
      if Acceptable(v, admits) && Height(v) <= MAX_DEPTH && Count(v) <= MAX_NODES then Yes(v) else No
  {
    hide ParseDocument, Denote, Accepts, Canonical, Acceptable, Wf, Spell, Printable, Height, Count;
    var d := Item([], Canonical(v), []);
    PrintIsDocument(v);
    CanonicalExact(v, UnitView);
    CanonicalAccepted(v, admits);
    DenoteSize(d.value, UnitView);
    StrictDocument(Print(v), admits);
    if Height(v) <= MAX_DEPTH && Count(v) <= MAX_NODES {
      DocumentComplete(d, SCAN_CONFIG);
    } else if ParseDocument(Print(v), SCAN_CONFIG).Ok? {
      DocumentSound(Print(v), SCAN_CONFIG);
      Unambiguous(ParseDocument(Print(v), SCAN_CONFIG).value, d);
    }
  }

  /******* Number writers *******/

  // A value whose numbers are spelled by a writer.
  function Respell(v: Json, write: Number -> Number): Json
    decreases v, 1
  {
    match v
    case Num(n) => Num(write(n))
    case Arr(items) => Arr(RespellItems(items, write))
    case Obj(members) => Obj(RespellMembers(members, write))
    case _ => v
  }

  function RespellItems(items: seq<Json>, write: Number -> Number): seq<Json>
    decreases items, 0
  {
    if items == [] then [] else [Respell(items[0], write)] + RespellItems(items[1..], write)
  }

  function RespellMembers(members: seq<Member>, write: Number -> Number): seq<Member>
    decreases members, 0
  {
    if members == [] then []
    else [Member(members[0].key, Respell(members[0].value, write))] + RespellMembers(members[1..], write)
  }

  // What a serialiser with this writer emits.
  function Serialise(v: Json, write: Number -> Number): Text { Print(Respell(v, write)) }

  // The writer turns JSON numbers into JSON numbers.
  ghost predicate Writer(write: Number -> Number) { forall n :: WfNumber(n) ==> WfNumber(write(n)) }

  // The written number is treated like the number itself.
  ghost predicate Keeps(write: Number -> Number, test: Number -> bool) {
    forall n :: WfNumber(n) ==> test(write(n)) == test(n)
  }

  // Respelling changes nothing but numbers.
  lemma {:induction false} Respelled(v: Json, write: Number -> Number, admits: Number -> bool)
    requires Printable(v) && Writer(write) && Keeps(write, admits)
    ensures var r := Respell(v, write);
      && Printable(r) && Height(r) == Height(v) && Count(r) == Count(v)
      && Acceptable(r, admits) == Acceptable(v, admits) && LoadsBack(r, admits) == LoadsBack(v, admits)
      && Clean(r, admits) == Clean(v, admits)
    decreases v, 1
  {
    match v
    case Arr(items) => RespelledItems(items, write, admits);
    case Obj(members) => RespelledMembers(members, write, admits, {});
    case _ =>
  }

  lemma {:induction false} RespelledItems(items: seq<Json>, write: Number -> Number, admits: Number -> bool)
    requires PrintableItems(items) && Writer(write) && Keeps(write, admits)
    ensures var r := RespellItems(items, write);
      && PrintableItems(r) && ItemsHeight(r) == ItemsHeight(items) && ItemsCount(r) == ItemsCount(items)
      && AcceptableItems(r, admits) == AcceptableItems(items, admits) && LoadsBackItems(r, admits) == LoadsBackItems(items, admits)
      && CleanItems(r, admits) == CleanItems(items, admits)
    decreases items, 0
  {
    if items != [] {
      hide Respell, Printable, Height, Count, Acceptable, LoadsBack, Clean, Writer, Keeps;
      Respelled(items[0], write, admits);
      RespelledItems(items[1..], write, admits);
      assert RespellItems(items, write)[1..] == RespellItems(items[1..], write);
    }
  }

  lemma {:induction false} RespelledMembers(members: seq<Member>, write: Number -> Number, admits: Number -> bool, seen: set<Text>)
    requires PrintableMembers(members) && Writer(write) && Keeps(write, admits)
    ensures var r := RespellMembers(members, write);
      && PrintableMembers(r) && MembersHeight(r) == MembersHeight(members) && MembersCount(r) == MembersCount(members)
      && AcceptableMembers(r, admits, seen) == AcceptableMembers(members, admits, seen)
      && LoadsBackMembers(r, admits, seen) == LoadsBackMembers(members, admits, seen)
      && CleanMembers(r, admits) == CleanMembers(members, admits)
    decreases members, 0
  {
    if members != [] {
      hide Respell, Printable, Height, Count, Acceptable, LoadsBack, Clean, Writer, Keeps, WellFormedUnits, Natural, NoSurrogate;
      Respelled(members[0].value, write, admits);
      RespelledMembers(members[1..], write, admits, seen + {members[0].key});
      assert RespellMembers(members, write)[1..] == RespellMembers(members[1..], write);
    }
  }

  // Reading what a serialiser emits gives back the value with its numbers respelled, exactly when the value itself
  // may be accepted.
  lemma SerialiseThenRead(v: Json, write: Number -> Number, admits: Number -> bool)
    requires Printable(v) && Writer(write) && Keeps(write, admits)
    ensures StrictRead(Serialise(v, write), admits) ==
      if Acceptable(v, admits) && Height(v) <= MAX_DEPTH && Count(v) <= MAX_NODES then Yes(Respell(v, write)) else No
  {
    hide Print, StrictRead, Respell, Acceptable, Printable, Height, Count, LoadsBack;
    Respelled(v, write, admits);
    PrintThenRead(Respell(v, write), admits);
  }

  /******* The same for the two-pass decoder *******/

  ghost predicate LoadsBack(v: Json, decodes: Number -> bool)
    decreases v, 1
  {
    match v
    case Num(n) => decodes(n)
    case Arr(items) => LoadsBackItems(items, decodes)
    case Obj(members) => LoadsBackMembers(members, decodes, {})
    case _ => true
  }

  ghost predicate LoadsBackItems(items: seq<Json>, decodes: Number -> bool)
    decreases items, 0
  {
    items == [] || (LoadsBack(items[0], decodes) && LoadsBackItems(items[1..], decodes))
  }

  ghost predicate LoadsBackMembers(members: seq<Member>, decodes: Number -> bool, seen: set<Text>)
    decreases members, 0
  {
    members == [] ||
    (&& members[0].key !in seen && LoadsBack(members[0].value, decodes)
     && LoadsBackMembers(members[1..], decodes, seen + {members[0].key}))
  }

  lemma {:induction false} CanonicalLoads(v: Json, decodes: Number -> bool)
    requires Printable(v)
    ensures Loadable(Canonical(v), decodes) == LoadsBack(v, decodes)
    decreases v, 1
  {
    match v
    case Arr(items) => CanonicalItemsLoad(items, decodes);
    case Obj(members) => CanonicalPairsLoad(members, decodes, {});
    case _ =>
  }

  lemma {:induction false} CanonicalItemsLoad(items: seq<Json>, decodes: Number -> bool)
    requires PrintableItems(items)
    ensures LoadableItems(CanonicalItems(items), decodes) == LoadsBackItems(items, decodes)
    decreases items, 0
  {
    if items != [] {
      hide Canonical, Loadable, LoadsBack, Printable;
      CanonicalLoads(items[0], decodes);
      CanonicalItemsLoad(items[1..], decodes);
      assert CanonicalItems(items)[1..] == CanonicalItems(items[1..]);
    }
  }

  lemma {:induction false} CanonicalPairsLoad(members: seq<Member>, decodes: Number -> bool, seen: set<Text>)
    requires PrintableMembers(members)
    ensures LoadablePairs(CanonicalPairs(members), decodes, seen) == LoadsBackMembers(members, decodes, seen)
    decreases members, 0
  {
    if members != [] {
      hide Canonical, Loadable, LoadsBack, Printable, CanonicalElems, Points;
      CanonicalPoints(members[0].key);
      CanonicalLoads(members[0].value, decodes);
      CanonicalPairsLoad(members[1..], decodes, seen + {members[0].key});
      assert CanonicalPairs(members)[1..] == CanonicalPairs(members[1..]);
    }
  }

  lemma PrintThenDecode(v: Json, decodes: Number -> bool, safe: Number -> bool)
    requires Printable(v)
    ensures DecodeText(Print(v), decodes, safe) == if LoadsBack(v, decodes) && Finite(v, safe) then Yes(v) else No
  {
    hide ParseDocument, Denote, Loadable, Canonical, Clean, Wf, Spell, Printable, Height, Count, LoadsBack, Loads;
    var d := Item([], Canonical(v), []);
    PrintIsDocument(v);
    CanonicalExact(v, PointView);
    CanonicalLoads(v, decodes);
    DenoteSize(d.value, PointView);
    if ParseDocument(Print(v), SCAN_CONFIG).Ok? {
      DocumentSound(Print(v), SCAN_CONFIG);
      Unambiguous(ParseDocument(Print(v), SCAN_CONFIG).value, d);
      ScannedValue(Print(v), decodes, safe);
    } else if Finite(v, safe) {
      DocumentComplete(d, SCAN_CONFIG);
    }
  }

  lemma SerialiseThenDecode(v: Json, write: Number -> Number, decodes: Number -> bool, safe: Number -> bool)
    requires Printable(v) && Writer(write) && Keeps(write, decodes) && Keeps(write, safe)
    ensures DecodeText(Serialise(v, write), decodes, safe) ==
      if LoadsBack(v, decodes) && Finite(v, safe) then Yes(Respell(v, write)) else No
  {
    hide Print, DecodeText, Respell, Acceptable, Printable, Height, Count, LoadsBack, Clean;
    Respelled(v, write, decodes);
    Respelled(v, write, safe);
    PrintThenDecode(Respell(v, write), decodes, safe);
  }
}
