/**
 validateJsonValue of tools/contracts/templates/strict-json.ts: it adds up the UTF-8 length of the
 compact serialisation without building it, and stops at the first count over the hard limit.
 */
module JsonSize {
  import opened Unicode
  import opened JsonValues
  import opened JsonSyntax
  import opened JsonReading
  import opened JsonPrinting

  const HARD_MAX_BYTES: nat := 4 * 1024 * 1024

  datatype Verdict = Fine | Malformed | TooLarge

  /******* The length of a serialisation *******/

  function UnitBytes(c: int): nat {
    if c == QUOTE || c == BACKSLASH then 2
    else if c < 0x20 then (if c == 0x08 || c == 0x09 || c == 0x0A || c == 0x0C || c == 0x0D then 2 else 6)
    else if c <= 0x7F then 1
    else if c <= 0x7FF then 2
    else 3
  }

  // The bytes of a string's content; a surrogate pair takes four.
  function ContentBytes(s: Text): nat {
    if s == [] then 0
    else if High(s[0]) && |s| > 1 then 4 + ContentBytes(s[2..])
    else UnitBytes(s[0]) + ContentBytes(s[1..])
  }

  function StringBytes(s: Text): nat { 2 + ContentBytes(s) }

  // `write` is how the serialiser spells a number.
  function Bytes(v: Json, write: Number -> Number): nat
    decreases v, 1
  {
    match v
    case Null => 4
    case Bool(b) => if b then 4 else 5
    case Num(n) => |SpellNumber(write(n), [])|
    case Str(s) => StringBytes(s)
    case Arr(items) => 2 + ItemsBytes(items, write)
    case Obj(members) => 2 + MembersBytes(members, write)
  }

  function ItemsBytes(items: seq<Json>, write: Number -> Number): nat
    decreases items, 0
  {
    if items == [] then 0
    else Bytes(items[0], write) + (if |items| > 1 then 1 else 0) + ItemsBytes(items[1..], write)
  }

  function MembersBytes(members: seq<Member>, write: Number -> Number): nat
    decreases members, 0
  {
    if members == [] then 0
    else
      StringBytes(members[0].key) + 1 + Bytes(members[0].value, write) + (if |members| > 1 then 1 else 0) +
      MembersBytes(members[1..], write)
  }

  // The length in bytes of a text held as units.
  function Length(u: Text): nat { |Utf8OfUnits(u)| }

  lemma LengthAscii(c: int, rest: Text)
    requires c <= 0x7F
    ensures Length([c] + rest) == 1 + Length(rest)
  {
    assert ([c] + rest)[1..] == rest;
  }

  lemma {:induction false} LengthAsciiText(s: Text, rest: Text)
    requires forall i :: 0 <= i < |s| ==> s[i] <= 0x7F
    ensures Length(s + rest) == |s| + Length(rest)
  {
    if s == [] {
      assert s + rest == rest;
    } else {
      hide Length;
      LengthAscii(s[0], s[1..] + rest);
      LengthAsciiText(s[1..], rest);
      assert s + rest == [s[0]] + (s[1..] + rest);
    }
  }

  lemma ElemLength(c: int, rest: Text)
    requires 0 <= c && !Surrogate(c) && c <= 0xFFFF
    ensures Length(SpellElem(CanonicalElem(c), rest)) == UnitBytes(c) + Length(rest)
  {
    var e := CanonicalElem(c);
    CanonicalElemExact(c);
    match e
    case Raw(_) => assert ([c] + rest)[1..] == rest;
    case Short(m) => LengthAsciiText([BACKSLASH, m], rest);
    case Hex(a, b, d, f) => LengthAsciiText([BACKSLASH, 0x75, a, b, d, f], rest);
  }

  lemma PairLength(high: int, low: int, rest: Text)
    requires High(high) && Low(low)
    ensures Length([high] + ([low] + rest)) == 4 + Length(rest)
  {
    assert ([high] + ([low] + rest))[2..] == rest;
  }

  ghost predicate UnitsText(s: Text) { forall i :: 0 <= i < |s| ==> 0 <= s[i] <= 0xFFFF }

  lemma {:induction false} ContentLength(s: Text, rest: Text)
    requires UnitsText(s) && WellFormedUnits(s)
    ensures Length(SpellElems(CanonicalElems(s), rest)) == ContentBytes(s) + 1 + Length(rest)
    decreases |s|
  {
    if s == [] {
      LengthAscii(QUOTE, rest);
    } else {
      hide Length, CanonicalElem, SpellElem, UnitBytes;
      var es := CanonicalElems(s);
      assert es[1..] == CanonicalElems(s[1..]);
      if High(s[0]) {
        var t := s[2..];
        assert s[1..][1..] == t;
        assert es[1..][1..] == CanonicalElems(t);
        ContentLength(t, rest);
        RawSurrogate(s[0]);
        RawSurrogate(s[1]);
        var tail := SpellElems(CanonicalElems(t), rest);
        assert SpellElems(es[1..], rest) == SpellElem(es[1], tail);
        SpellRaw(s[0], SpellElems(es[1..], rest));
        SpellRaw(s[1], tail);
        PairLength(s[0], s[1], tail);
      } else {
        ContentLength(s[1..], rest);
        ElemLength(s[0], SpellElems(es[1..], rest));
      }
    }
  }

  lemma RawSurrogate(c: int)
    requires Surrogate(c)
    ensures CanonicalElem(c) == Raw(c)
  {
  }

  lemma SpellRaw(c: int, rest: Text)
    ensures SpellElem(Raw(c), rest) == [c] + rest
  {
  }

  lemma QuotedLength(s: Text, rest: Text)
    requires UnitsText(s) && WellFormedUnits(s)
    ensures Length([QUOTE] + SpellElems(CanonicalElems(s), rest)) == StringBytes(s) + Length(rest)
  {
    hide Length;
    LengthAscii(QUOTE, SpellElems(CanonicalElems(s), rest));
    ContentLength(s, rest);
  }

  // Values whose strings are sequences of code units and whose numbers are JSON numbers.
  ghost predicate UnitsValue(v: Json)
    decreases v, 1
  {
    match v
    case Num(n) => WfNumber(n)
    case Str(s) => UnitsText(s)
    case Arr(items) => UnitsItems(items)
    case Obj(members) => UnitsMembers(members)
    case _ => true
  }

  ghost predicate UnitsItems(items: seq<Json>)
    decreases items, 0
  {
    items == [] || (UnitsValue(items[0]) && UnitsItems(items[1..]))
  }

  ghost predicate UnitsMembers(members: seq<Member>)
    decreases members, 0
  {
    members == [] || (UnitsText(members[0].key) && UnitsValue(members[0].value) && UnitsMembers(members[1..]))
  }

  // Every string pairs its surrogates and every number is admitted.
  predicate Sound(v: Json, admits: Number -> bool)
    decreases v, 1
  {
    match v
    case Num(n) => admits(n)
    case Str(s) => WellFormedUnits(s)
    case Arr(items) => SoundItems(items, admits)
    case Obj(members) => SoundMembers(members, admits)
    case _ => true
  }

  predicate SoundItems(items: seq<Json>, admits: Number -> bool)
    decreases items, 0
  {
    items == [] || (Sound(items[0], admits) && SoundItems(items[1..], admits))
  }

  predicate SoundMembers(members: seq<Member>, admits: Number -> bool)
    decreases members, 0
  {
    members == [] ||
    (WellFormedUnits(members[0].key) && Sound(members[0].value, admits) && SoundMembers(members[1..], admits))
  }

  lemma {:induction false} ValueLength(v: Json, write: Number -> Number, admits: Number -> bool, rest: Text)
    requires UnitsValue(v) && Sound(v, admits) && Writer(write)
    ensures Length(Spell(Canonical(Respell(v, write)), rest)) == Bytes(v, write) + Length(rest)
    decreases v, 1
  {
    hide Length, SpellElems, CanonicalElems, SpellNumber, SpellItems, SpellPairs, CanonicalItems, CanonicalPairs, StringBytes, WellFormedUnits;
    hide RespellItems, RespellMembers;
    match v
    case Null => LengthAsciiText(NULL, rest);
    case Bool(b) => LengthAsciiText(if b then TRUE else FALSE, rest);
    case Num(n) => NumberLength(write(n), rest);
    case Str(s) => QuotedLength(s, rest);
    case Arr(items) =>
      RespelledEmpty(items, [], write);
      EmptyLength(OPEN_ARRAY, CLOSE_ARRAY, rest);
      LengthAscii(OPEN_ARRAY, SpellItems(CanonicalItems(RespellItems(items, write)), rest));
      if items != [] {
        ItemsLength(items, write, admits, rest);
      }
    case Obj(members) =>
      RespelledEmpty([], members, write);
      EmptyLength(OPEN_OBJECT, CLOSE_OBJECT, rest);
      LengthAscii(OPEN_OBJECT, SpellPairs(CanonicalPairs(RespellMembers(members, write)), rest));
      if members != [] {
        MembersLength(members, write, admits, rest);
      }
  }

  lemma NumberLength(n: Number, rest: Text)
    requires WfNumber(n)
    ensures Length(SpellNumber(n, rest)) == |SpellNumber(n, [])| + Length(rest)
  {
    hide Length, SpellNumber;
    NumberPlain(n, []);
    NumberAppend(n, [], rest);
    assert [] + rest == rest;
    LengthAsciiText(SpellNumber(n, []), rest);
  }

  lemma RespelledEmpty(items: seq<Json>, members: seq<Member>, write: Number -> Number)
    ensures RespellItems(items, write) == [] <==> items == []
    ensures RespellMembers(members, write) == [] <==> members == []
    ensures ItemsBytes([], write) == 0 && MembersBytes([], write) == 0
  {
  }

  lemma EmptyLength(open: int, close: int, rest: Text)
    requires open <= 0x7F && close <= 0x7F
    ensures Length([open] + ([] + ([close] + rest))) == 2 + Length(rest)
  {
    hide Length;
    assert [] + ([close] + rest) == [close] + rest;
    LengthAscii(open, [close] + rest);
    LengthAscii(close, rest);
  }

  lemma {:induction false} ItemsLength(items: seq<Json>, write: Number -> Number, admits: Number -> bool, rest: Text)
    requires items != [] && UnitsItems(items) && SoundItems(items, admits) && Writer(write)
    ensures Length(SpellItems(CanonicalItems(RespellItems(items, write)), rest)) == ItemsBytes(items, write) + 1 + Length(rest)
    decreases items, 0
  {
    hide Length, Spell, Canonical, Bytes, UnitsValue, Sound, Respell, Writer, SpellItems, CanonicalItems;
    var spelled, more := RespellItems(items, write), items[1..];
    assert spelled[0] == Respell(items[0], write) && spelled[1..] == RespellItems(more, write);
    RespelledEmpty(more, [], write);
    ItemsStep(spelled, rest);
    if |items| == 1 {
      ValueLength(items[0], write, admits, [CLOSE_ARRAY] + rest);
      LengthAscii(CLOSE_ARRAY, rest);
    } else {
      var tail := SpellItems(CanonicalItems(spelled[1..]), rest);
      ValueLength(items[0], write, admits, [COMMA] + tail);
      ItemsLength(more, write, admits, rest);
      LengthAscii(COMMA, tail);
    }
  }

  lemma {:induction false} MembersLength(members: seq<Member>, write: Number -> Number, admits: Number -> bool, rest: Text)
    requires members != [] && UnitsMembers(members) && SoundMembers(members, admits) && Writer(write)
    ensures Length(SpellPairs(CanonicalPairs(RespellMembers(members, write)), rest)) == MembersBytes(members, write) + 1 + Length(rest)
    decreases members, 0
  {
    hide Length, Spell, Canonical, Bytes, UnitsValue, Sound, Respell, Writer, SpellPairs, CanonicalPairs, CanonicalElems, SpellElems;
    hide StringBytes, WellFormedUnits, UnitsText;
    var spelled, more, m := RespellMembers(members, write), members[1..], members[0];
    assert spelled[0] == Member(m.key, Respell(m.value, write)) && spelled[1..] == RespellMembers(more, write);
    RespelledEmpty([], more, write);
    MembersStep(spelled, rest);
    var end := if |members| == 1 then [CLOSE_OBJECT] + rest else [COMMA] + SpellPairs(CanonicalPairs(spelled[1..]), rest);
    NameLength(m.key, Spell(Canonical(Respell(m.value, write)), end));
    ValueLength(m.value, write, admits, end);
    if |members| == 1 {
      LengthAscii(CLOSE_OBJECT, rest);
    } else {
      MembersLength(more, write, admits, rest);
      LengthAscii(COMMA, SpellPairs(CanonicalPairs(spelled[1..]), rest));
    }
  }

  lemma NameLength(key: Text, value: Text)
    requires UnitsText(key) && WellFormedUnits(key)
    ensures Length([QUOTE] + SpellElems(CanonicalElems(key), [COLON] + value)) == StringBytes(key) + 1 + Length(value)
  {
    hide Length, SpellElems, CanonicalElems, StringBytes;
    QuotedLength(key, [COLON] + value);
    LengthAscii(COLON, value);
  }

  // The running total is the length of the serialisation.
  lemma BytesArePrinted(v: Json, write: Number -> Number, admits: Number -> bool)
    requires UnitsValue(v) && Sound(v, admits) && Writer(write)
    ensures Bytes(v, write) == |Utf8OfUnits(Serialise(v, write))|
  {
    hide Utf8OfUnits, Spell, Canonical, Bytes, Sound, UnitsValue, Respell;
    ValueLength(v, write, admits, []);
    assert Length([]) == 0 by { EmptyText(); }
  }

  lemma EmptyText()
    ensures Utf8OfUnits([]) == []
  {
  }

  /******* The validator *******/

  class Validator {
    const admits: Number -> bool
    const write: Number -> Number
    var nodes: nat
    var utf8Bytes: nat

    constructor (admits: Number -> bool, write: Number -> Number)
      ensures this.admits == admits && this.write == write && nodes == 0 && utf8Bytes == 0
    {
      this.admits := admits;
      this.write := write;
      nodes := 0;
      utf8Bytes := 0;
    }

    ghost predicate Within()
      reads this
    {
      utf8Bytes <= HARD_MAX_BYTES
    }

    // Counting one part of a value: it succeeds exactly when the part is sound and its bytes fit, and
    // it calls a sound part malformed never.
    twostate predicate Counted(r: Verdict, sound: bool, bytes: nat)
      reads this
    {
      && (r.Fine? <==> sound && old(utf8Bytes) + bytes <= HARD_MAX_BYTES)
      && (r.Malformed? ==> !sound)
      && (r.Fine? ==> utf8Bytes == old(utf8Bytes) + bytes)
    }

    method AddBytes(count: nat) returns (r: Verdict)
      requires Within()
      modifies `utf8Bytes
      ensures Counted(r, true, count)
    {
      if count > HARD_MAX_BYTES - utf8Bytes {
        return TooLarge;
      }
      utf8Bytes := utf8Bytes + count;
      return Fine;
    }

    method CountString(text: Text) returns (r: Verdict)
      requires Within()
      modifies `utf8Bytes
      ensures Counted(r, WellFormedUnits(text), StringBytes(text))
    {
      r := AddBytes(2);
      if !r.Fine? { return; }
      var i := 0;
      while i < |text|
        invariant 0 <= i <= |text| && Within()
        invariant WellFormedUnits(text) == WellFormedUnits(text[i..])
        invariant utf8Bytes + ContentBytes(text[i..]) == old(utf8Bytes) + StringBytes(text)
      {
        ghost var rest := text[i..];
        var c := text[i];
        assert rest[1..] == text[i + 1..];
        if High(c) {
          var next := if i + 1 < |text| then text[i + 1] else -1;
          if !Low(next) {
            return Malformed;
          }
          assert rest[2..] == text[i + 2..] && rest[1] == next;
          r := AddBytes(4);
          i := i + 1;
        } else if Low(c) {
          return Malformed;
        } else {
          r := AddBytes(UnitBytes(c));
        }
        if !r.Fine? { return; }
        i := i + 1;
      }
      assert text[i..] == [];
      return Fine;
    }

    ghost predicate Fits(v: Json, depth: nat, before: nat) {
      Sound(v, admits) && depth + Height(v) <= MAX_DEPTH && before + Count(v) <= MAX_NODES
    }

    method Visit(item: Json, depth: nat) returns (r: Verdict)
      requires Within()
      modifies this
      ensures Counted(r, Fits(item, depth, old(nodes)), Bytes(item, write))
      ensures r.Fine? ==> nodes == old(nodes) + Count(item)
      decreases item, 1
    {
      if depth > MAX_DEPTH {
        return Malformed;
      }
      nodes := nodes + 1;
      if nodes > MAX_NODES {
        return Malformed;
      }
      match item
      case Null => r := AddBytes(4);
      case Bool(b) => r := AddBytes(if b then 4 else 5);
      case Str(s) => r := CountString(s);
      case Num(n) =>
        if !admits(n) {
          return Malformed;
        }
        r := AddBytes(|SpellNumber(write(n), [])|);
      case Arr(items) =>
        if |items| > MAX_NODES {
          CountAtLeast(items);
          return Malformed;
        }
        r := AddBytes(2);
        if r.Fine? {
          r := VisitItems(items, depth);
        }
      case Obj(members) =>
        r := AddBytes(2);
        if r.Fine? {
          r := VisitMembers(members, depth);
        }
    }

    ghost predicate FitsItems(items: seq<Json>, depth: nat, before: nat) {
      SoundItems(items, admits) && depth + ItemsHeight(items) <= MAX_DEPTH && before + ItemsCount(items) <= MAX_NODES
    }

    ghost predicate FitsMembers(members: seq<Member>, depth: nat, before: nat) {
      && SoundMembers(members, admits) && depth + MembersHeight(members) <= MAX_DEPTH
      && before + MembersCount(members) <= MAX_NODES
    }

    method VisitItems(items: seq<Json>, depth: nat) returns (r: Verdict)
      requires Within() && depth <= MAX_DEPTH && nodes <= MAX_NODES
      modifies this
      ensures Counted(r, FitsItems(items, depth, old(nodes)), ItemsBytes(items, write))
      ensures r.Fine? ==> nodes == old(nodes) + ItemsCount(items)
      decreases items, 0
    {
      hide Sound, Bytes, Height, Count;
      assert items[0..] == items;
      for i := 0 to |items|
        invariant Within() && nodes <= MAX_NODES
        invariant FitsItems(items, depth, old(nodes)) == FitsItems(items[i..], depth, nodes)
        invariant nodes + ItemsCount(items[i..]) == old(nodes) + ItemsCount(items)
        invariant utf8Bytes + (if 0 < i < |items| then 1 else 0) + ItemsBytes(items[i..], write) ==
                  old(utf8Bytes) + ItemsBytes(items, write)
      {
        assert items[i..][1..] == items[i + 1..];
        if i > 0 {
          r := AddBytes(1);
          if !r.Fine? { return; }
        }
        r := Visit(items[i], depth + 1);
        if !r.Fine? { return; }
      }
      assert items[|items|..] == [];
      return Fine;
    }

    method VisitMembers(members: seq<Member>, depth: nat) returns (r: Verdict)
      requires Within() && depth <= MAX_DEPTH && nodes <= MAX_NODES
      modifies this
      ensures Counted(r, FitsMembers(members, depth, old(nodes)), MembersBytes(members, write))
      ensures r.Fine? ==> nodes == old(nodes) + MembersCount(members)
      decreases members, 0
    {
      hide Sound, Bytes, Height, Count, StringBytes, WellFormedUnits;
      assert members[0..] == members;
      var first := true;
      for i := 0 to |members|
        invariant Within() && nodes <= MAX_NODES && first == (i == 0)
        invariant FitsMembers(members, depth, old(nodes)) == FitsMembers(members[i..], depth, nodes)
        invariant nodes + MembersCount(members[i..]) == old(nodes) + MembersCount(members)
        invariant utf8Bytes + (if 0 < i < |members| then 1 else 0) + MembersBytes(members[i..], write) ==
                  old(utf8Bytes) + MembersBytes(members, write)
      {
        assert members[i..][1..] == members[i + 1..];
        if !first {
          r := AddBytes(1);
          if !r.Fine? { return; }
        }
        first := false;
        r := CountString(members[i].key);
        if !r.Fine? { return; }
        r := AddBytes(1);
        if !r.Fine? { return; }
        r := Visit(members[i].value, depth + 1);
        if !r.Fine? { return; }
      }
      assert members[|members|..] == [];
      return Fine;
    }
  }

  lemma {:induction false} CountAtLeast(items: seq<Json>)
    ensures ItemsCount(items) >= |items|
  {
    if items != [] {
      CountAtLeast(items[1..]);
      assert Count(items[0]) >= 1;
    }
  }

  // A value is accepted exactly when it is sound, within the limits, and its serialisation fits in four
  // mebibytes; a value that fails only in length is refused for its length.
  method ValidateJsonValue(value: Json, admits: Number -> bool, write: Number -> Number) returns (r: Verdict)
    requires UnitsValue(value) && Writer(write)
    ensures
      var ok := Sound(value, admits) && Height(value) <= MAX_DEPTH && Count(value) <= MAX_NODES;
      var size := |Utf8OfUnits(Serialise(value, write))|;
      && (r.Fine? <==> ok && size <= 4_194_304)
      && (ok && size > 4_194_304 ==> r.TooLarge?)
      && (r.Malformed? ==> !ok)
  {
    hide Sound, Bytes, Height, Count, Utf8OfUnits, Serialise, Writer;
    var validator := new Validator(admits, write);
    r := validator.Visit(value, 0);
    if Sound(value, admits) {
      BytesArePrinted(value, write, admits);
    }
  }

  /******* What is validated can be read *******/

  // No object in the value has a name twice.
  ghost predicate NamesOnce(v: Json)
    decreases v, 1
  {
    match v
    case Arr(items) => ItemsNamesOnce(items)
    case Obj(members) => MembersNamesOnce(members, {})
    case _ => true
  }

  ghost predicate ItemsNamesOnce(items: seq<Json>)
    decreases items, 0
  {
    items == [] || (NamesOnce(items[0]) && ItemsNamesOnce(items[1..]))
  }

  ghost predicate MembersNamesOnce(members: seq<Member>, seen: set<Text>)
    decreases members, 0
  {
    members == [] ||
    (members[0].key !in seen && NamesOnce(members[0].value) && MembersNamesOnce(members[1..], seen + {members[0].key}))
  }

  lemma {:induction false} SoundAndNamed(v: Json, admits: Number -> bool)
    requires UnitsValue(v)
    ensures Printable(v) && (Acceptable(v, admits) <==> Sound(v, admits) && NamesOnce(v))
    decreases v, 1
  {
    match v
    case Arr(items) => SoundAndNamedItems(items, admits);
    case Obj(members) => SoundAndNamedMembers(members, admits, {});
    case _ =>
  }

  lemma {:induction false} SoundAndNamedItems(items: seq<Json>, admits: Number -> bool)
    requires UnitsItems(items)
    ensures PrintableItems(items) && (AcceptableItems(items, admits) <==> SoundItems(items, admits) && ItemsNamesOnce(items))
    decreases items, 0
  {
    if items != [] {
      hide Sound, NamesOnce, Acceptable, Printable, UnitsValue;
      SoundAndNamed(items[0], admits);
      SoundAndNamedItems(items[1..], admits);
    }
  }

  lemma {:induction false} SoundAndNamedMembers(members: seq<Member>, admits: Number -> bool, seen: set<Text>)
    requires UnitsMembers(members)
    ensures PrintableMembers(members)
    ensures AcceptableMembers(members, admits, seen) <==> SoundMembers(members, admits) && MembersNamesOnce(members, seen)
    decreases members, 0
  {
    if members != [] {
      hide Sound, NamesOnce, Acceptable, Printable, UnitsValue, WellFormedUnits;
      SoundAndNamed(members[0].value, admits);
      SoundAndNamedMembers(members[1..], admits, seen + {members[0].key});
    }
  }

  // The validator and the reader agree: apart from the size in bytes, a value without repeated names is validated
  // exactly when the reader returns it for the text that it is printed as.
  lemma ValidatedIsRead(v: Json, admits: Number -> bool)
    requires UnitsValue(v) && NamesOnce(v)
    ensures Sound(v, admits) && Height(v) <= MAX_DEPTH && Count(v) <= MAX_NODES <==> StrictRead(Print(v), admits) == Yes(v)
  {
    hide Sound, NamesOnce, Acceptable, Printable, UnitsValue, StrictRead, Print, Height, Count;
    SoundAndNamed(v, admits);
    PrintThenRead(v, admits);
  }
}
