/**
 How the two boundaries measure a value: _canonical_size of vuoro_contracts/validation.py builds the
 serialisation and encodes it, validateJsonValue only counts.  Strings, names and punctuation measure
 alike; numbers do not, because each language spells them its own way.  `py` and `ts` are their writers.
 */
module SizeAgreement {
  import opened Unicode
  import opened JsonValues
  import opened JsonSyntax
  import opened JsonReading
  import opened JsonPrinting
  import opened JsonSize
  import opened TwoPass
  import opened TwoPassDecoder

  method CanonicalSize(v: Json, safe: Number -> bool, py: Number -> Number) returns (r: Outcome<nat>)
    ensures r == if Finite(v, safe) then Yes(|Utf8(Serialise(v, py))|) else No
  {
    var check := new FiniteCheck(safe);
    var finite := check.Check(v, 0);
    return if finite then Yes(|Utf8(Serialise(v, py))|) else No;
  }

  /******* Values that both languages hold *******/

  // Strings of scalar values, and numbers that are JSON numbers.
  ghost predicate ScalarValue(v: Json)
    decreases v, 1
  {
    match v
    case Num(n) => WfNumber(n)
    case Str(s) => Scalars(s)
    case Arr(items) => ScalarItems(items)
    case Obj(members) => ScalarMembers(members)
    case _ => true
  }

  ghost predicate ScalarItems(items: seq<Json>)
    decreases items, 0
  {
    items == [] || (ScalarValue(items[0]) && ScalarItems(items[1..]))
  }

  ghost predicate ScalarMembers(members: seq<Member>)
    decreases members, 0
  {
    members == [] || (Scalars(members[0].key) && ScalarValue(members[0].value) && ScalarMembers(members[1..]))
  }

  lemma {:induction false} EncodedString(s: Text)
    requires Scalars(s)
    ensures UnitsText(Utf16(s)) && WellFormedUnits(Utf16(s)) && NoSurrogate(s)
  {
    if s != [] {
      EncodedString(s[1..]);
      var u := Units(s[0]);
      assert Utf16(s)[|u|..] == Utf16(s[1..]);
    }
  }

  // Encoding changes neither the size of a value nor what the checks make of it.
  lemma {:induction false} EncodedFacts(v: Json, safe: Number -> bool)
    requires ScalarValue(v)
    ensures UnitsValue(EncodeValue(v)) && (Sound(EncodeValue(v), safe) <==> Clean(v, safe))
    ensures Height(EncodeValue(v)) == Height(v) && Count(EncodeValue(v)) == Count(v)
    decreases v, 1
  {
    match v
    case Str(s) => EncodedString(s);
    case Arr(items) => EncodedItems(items, safe);
    case Obj(members) => EncodedMembers(members, safe);
    case _ =>
  }

  lemma {:induction false} EncodedItems(items: seq<Json>, safe: Number -> bool)
    requires ScalarItems(items)
    ensures UnitsItems(EncodeValues(items)) && (SoundItems(EncodeValues(items), safe) <==> CleanItems(items, safe))
    ensures ItemsHeight(EncodeValues(items)) == ItemsHeight(items) && ItemsCount(EncodeValues(items)) == ItemsCount(items)
    decreases items, 0
  {
    if items != [] {
      hide EncodeValue, UnitsValue, Sound, Clean, Height, Count, ScalarValue;
      EncodedFacts(items[0], safe);
      EncodedItems(items[1..], safe);
      assert EncodeValues(items)[1..] == EncodeValues(items[1..]);
    }
  }

  lemma {:induction false} EncodedMembers(members: seq<Member>, safe: Number -> bool)
    requires ScalarMembers(members)
    ensures UnitsMembers(EncodeMembers(members)) && (SoundMembers(EncodeMembers(members), safe) <==> CleanMembers(members, safe))
    ensures MembersHeight(EncodeMembers(members)) == MembersHeight(members)
    ensures MembersCount(EncodeMembers(members)) == MembersCount(members)
    decreases members, 0
  {
    if members != [] {
      hide EncodeValue, UnitsValue, Sound, Clean, Height, Count, ScalarValue, WellFormedUnits, Utf16, Scalars, NoSurrogate, UnitsText;
      EncodedString(members[0].key);
      EncodedFacts(members[0].value, safe);
      EncodedMembers(members[1..], safe);
      assert EncodeMembers(members)[1..] == EncodeMembers(members[1..]);
    }
  }

  /******* Serialising commutes with encoding *******/

  // One document in both views.
  ghost predicate SameText(t: Text, u: Text) { Scalars(t) && Utf16(t) == u }

  lemma SameChar(c: int, t: Text, u: Text)
    requires Scalar(c) && SameText(t, u)
    ensures SameText([c] + t, Units(c) + u)
  {
    assert ([c] + t)[1..] == t;
  }

  lemma SameAscii(c: int, t: Text, u: Text)
    requires 0 <= c <= 0x7F && SameText(t, u)
    ensures SameText([c] + t, [c] + u)
  {
    SameChar(c, t, u);
  }

  lemma {:induction false} SameWord(word: Text, t: Text, u: Text)
    requires SameText(t, u) && forall i :: 0 <= i < |word| ==> 0 <= word[i] <= 0x7F
    ensures SameText(word + t, word + u)
  {
    hide SameText;
    if word == [] {
      assert word + t == t && word + u == u;
    } else {
      SameWord(word[1..], t, u);
      SameAscii(word[0], word[1..] + t, word[1..] + u);
      assert word + t == [word[0]] + (word[1..] + t) && word + u == [word[0]] + (word[1..] + u);
    }
  }

  lemma SameElem(c: int, t: Text, u: Text)
    requires 0 <= c < 0x10000 && Scalar(c) && SameText(t, u)
    ensures SameText(SpellElem(CanonicalElem(c), t), SpellElem(CanonicalElem(c), u))
  {
    hide SameText;
    CanonicalElemExact(c);
    match CanonicalElem(c)
    case Raw(_) => SameChar(c, t, u);
    case Short(m) => SameWord([BACKSLASH, m], t, u);
    case Hex(d0, d1, d2, d3) => SameWord([BACKSLASH, 0x75, d0, d1, d2, d3], t, u);
  }

  lemma {:induction false} SameElems(s: Text, t: Text, u: Text)
    requires Scalars(s) && SameText(t, u)
    ensures SameText(SpellElems(CanonicalElems(s), t), SpellElems(CanonicalElems(Utf16(s)), u))
  {
    hide SameText, CanonicalElem, SpellElem;
    if s == [] {
      SameAscii(QUOTE, t, u);
    } else {
      var c, more := s[0], Utf16(s[1..]);
      SameElems(s[1..], t, u);
      assert CanonicalElems(s)[1..] == CanonicalElems(s[1..]);
      var a, b := SpellElems(CanonicalElems(s[1..]), t), SpellElems(CanonicalElems(more), u);
      assert Utf16(s) == Units(c) + more;
      if c < 0x10000 {
        SameElem(c, a, b);
        OneElem(c, more, u);
      } else {
        SameChar(c, a, b);
        WideElem(c, more, u);
        RawElem(c, a);
      }
    }
  }

  lemma OneElem(c: int, more: Text, u: Text)
    ensures SpellElems(CanonicalElems([c] + more), u) == SpellElem(CanonicalElem(c), SpellElems(CanonicalElems(more), u))
  {
    hide CanonicalElem, SpellElem;
    assert ([c] + more)[1..] == more;
    assert CanonicalElems([c] + more)[1..] == CanonicalElems(more);
  }

  lemma RawElem(c: int, rest: Text)
    requires c >= 0xD800
    ensures SpellElem(CanonicalElem(c), rest) == [c] + rest
  {
  }

  lemma WideElem(c: int, more: Text, u: Text)
    requires Scalar(c) && c >= 0x10000
    ensures SpellElems(CanonicalElems(Units(c) + more), u) == Units(c) + SpellElems(CanonicalElems(more), u)
  {
    hide CanonicalElem, SpellElem, CanonicalElems, SpellElems;
    var h, l := Units(c)[0], Units(c)[1];
    assert Units(c) + more == [h] + ([l] + more);
    OneElem(h, [l] + more, u);
    OneElem(l, more, u);
    var rest := SpellElems(CanonicalElems(more), u);
    RawElem(l, rest);
    RawElem(h, [l] + rest);
    assert Units(c) + rest == [h] + ([l] + rest);
  }

  lemma SameNumber(n: Number, t: Text, u: Text)
    requires WfNumber(n) && SameText(t, u)
    ensures SameText(SpellNumber(n, t), SpellNumber(n, u))
  {
    hide SameText, SpellNumber;
    NumberPlain(n, []);
    NumberAppend(n, [], t);
    NumberAppend(n, [], u);
    assert [] + t == t && [] + u == u;
    SameWord(SpellNumber(n, []), t, u);
  }

  lemma SameQuoted(s: Text, t: Text, u: Text)
    requires Scalars(s) && SameText(t, u)
    ensures SameText([QUOTE] + SpellElems(CanonicalElems(s), t), [QUOTE] + SpellElems(CanonicalElems(Utf16(s)), u))
  {
    hide SameText, SpellElems, CanonicalElems;
    SameElems(s, t, u);
    SameAscii(QUOTE, SpellElems(CanonicalElems(s), t), SpellElems(CanonicalElems(Utf16(s)), u));
  }

  lemma SameEmpty(open: int, close: int, t: Text, u: Text)
    requires 0 <= open <= 0x7F && 0 <= close <= 0x7F && SameText(t, u)
    ensures SameText([open] + ([] + ([close] + t)), [open] + ([] + ([close] + u)))
  {
    hide SameText;
    assert [] + ([close] + t) == [close] + t && [] + ([close] + u) == [close] + u;
    SameAscii(close, t, u);
    SameAscii(open, [close] + t, [close] + u);
  }

  lemma {:induction false} SameSpelling(v: Json, t: Text, u: Text)
    requires ScalarValue(v) && SameText(t, u)
    ensures SameText(Spell(Canonical(v), t), Spell(Canonical(EncodeValue(v)), u))
    decreases v, 1
  {
    hide SameText, SpellElems, CanonicalElems, SpellNumber, SpellItems, SpellPairs, CanonicalItems, CanonicalPairs, EncodeValues, EncodeMembers, Utf16, Scalars;
    match v
    case Null => SameWord(NULL, t, u);
    case Bool(b) => SameWord(if b then TRUE else FALSE, t, u);
    case Num(n) => SameNumber(n, t, u);
    case Str(s) => SameQuoted(s, t, u);
    case Arr(items) =>
      EncodedEmpty(items, []);
      SameEmpty(OPEN_ARRAY, CLOSE_ARRAY, t, u);
      if items != [] {
        SameItems(items, t, u);
        SameAscii(OPEN_ARRAY, SpellItems(CanonicalItems(items), t), SpellItems(CanonicalItems(EncodeValues(items)), u));
      }
    case Obj(members) =>
      EncodedEmpty([], members);
      SameEmpty(OPEN_OBJECT, CLOSE_OBJECT, t, u);
      if members != [] {
        SameMembers(members, t, u);
        SameAscii(OPEN_OBJECT, SpellPairs(CanonicalPairs(members), t), SpellPairs(CanonicalPairs(EncodeMembers(members)), u));
      }
  }

  lemma EncodedEmpty(items: seq<Json>, members: seq<Member>)
    ensures EncodeValues(items) == [] <==> items == []
    ensures EncodeMembers(members) == [] <==> members == []
  {
  }

  lemma {:induction false} SameItems(items: seq<Json>, t: Text, u: Text)
    requires items != [] && ScalarItems(items) && SameText(t, u)
    ensures SameText(SpellItems(CanonicalItems(items), t), SpellItems(CanonicalItems(EncodeValues(items)), u))
    decreases items, 0
  {
    hide SameText, Spell, Canonical, SpellItems, CanonicalItems, EncodeValue, ScalarValue;
    var encoded, rest := EncodeValues(items), items[1..];
    assert encoded[0] == EncodeValue(items[0]) && encoded[1..] == EncodeValues(rest);
    ItemsStep(items, t);
    ItemsStep(encoded, u);
    if |items| == 1 {
      assert EncodeValues(rest) == [];
      SameAscii(CLOSE_ARRAY, t, u);
      SameSpelling(items[0], [CLOSE_ARRAY] + t, [CLOSE_ARRAY] + u);
    } else {
      EncodedEmpty(rest, []);
      SameItems(rest, t, u);
      var a, b := SpellItems(CanonicalItems(rest), t), SpellItems(CanonicalItems(EncodeValues(rest)), u);
      SameAscii(COMMA, a, b);
      SameSpelling(items[0], [COMMA] + a, [COMMA] + b);
    }
  }

  lemma SameMember(m: Member, t: Text, u: Text)
    requires Scalars(m.key) && ScalarValue(m.value) && SameText(t, u)
    requires SameText(Spell(Canonical(m.value), t), Spell(Canonical(EncodeValue(m.value)), u))
    ensures SameText([QUOTE] + SpellElems(CanonicalElems(m.key), [COLON] + Spell(Canonical(m.value), t)),
                     [QUOTE] + SpellElems(CanonicalElems(Utf16(m.key)), [COLON] + Spell(Canonical(EncodeValue(m.value)), u)))
  {
    hide SameText, Spell, Canonical, EncodeValue, SpellElems, CanonicalElems;
    var a, b := Spell(Canonical(m.value), t), Spell(Canonical(EncodeValue(m.value)), u);
    SameAscii(COLON, a, b);
    SameQuoted(m.key, [COLON] + a, [COLON] + b);
  }

  lemma {:induction false} SameMembers(members: seq<Member>, t: Text, u: Text)
    requires members != [] && ScalarMembers(members) && SameText(t, u)
    ensures SameText(SpellPairs(CanonicalPairs(members), t), SpellPairs(CanonicalPairs(EncodeMembers(members)), u))
    decreases members, 0
  {
    hide SameText, Spell, Canonical, SpellPairs, CanonicalPairs, EncodeValue, ScalarValue, CanonicalElems, SpellElems, Scalars, Utf16;
    var encoded, rest, m := EncodeMembers(members), members[1..], members[0];
    assert encoded[0] == Member(Utf16(m.key), EncodeValue(m.value)) && encoded[1..] == EncodeMembers(rest);
    MembersStep(members, t);
    MembersStep(encoded, u);
    if |members| == 1 {
      assert EncodeMembers(rest) == [];
      SameAscii(CLOSE_OBJECT, t, u);
      SameSpelling(m.value, [CLOSE_OBJECT] + t, [CLOSE_OBJECT] + u);
      SameMember(m, [CLOSE_OBJECT] + t, [CLOSE_OBJECT] + u);
    } else {
      EncodedEmpty([], rest);
      SameMembers(rest, t, u);
      var a, b := SpellPairs(CanonicalPairs(rest), t), SpellPairs(CanonicalPairs(EncodeMembers(rest)), u);
      SameAscii(COMMA, a, b);
      SameSpelling(m.value, [COMMA] + a, [COMMA] + b);
      SameMember(m, [COMMA] + a, [COMMA] + b);
    }
  }

  // Serialising and then encoding is encoding and then serialising.
  lemma PrintEncodes(v: Json)
    requires ScalarValue(v)
    ensures Scalars(Print(v)) && Utf16(Print(v)) == Print(EncodeValue(v))
  {
    hide Spell, Canonical, EncodeValue, ScalarValue;
    assert SameText([], []);
    SameSpelling(v, [], []);
  }

  /******* Numbers *******/

  // How much longer the first writer spells a number than the second.
  function Longer(n: Number, py: Number -> Number, ts: Number -> Number): int {
    |SpellNumber(py(n), [])| - |SpellNumber(ts(n), [])|
  }

  // The sum over the numbers of a value.
  function Difference(v: Json, py: Number -> Number, ts: Number -> Number): int
    decreases v, 1
  {
    match v
    case Num(n) => Longer(n, py, ts)
    case Arr(items) => ItemsDifference(items, py, ts)
    case Obj(members) => MembersDifference(members, py, ts)
    case _ => 0
  }

  function ItemsDifference(items: seq<Json>, py: Number -> Number, ts: Number -> Number): int
    decreases items, 0
  {
    if items == [] then 0 else Difference(items[0], py, ts) + ItemsDifference(items[1..], py, ts)
  }

  function MembersDifference(members: seq<Member>, py: Number -> Number, ts: Number -> Number): int
    decreases members, 0
  {
    if members == [] then 0 else Difference(members[0].value, py, ts) + MembersDifference(members[1..], py, ts)
  }

  lemma {:induction false} BytesDiffer(v: Json, py: Number -> Number, ts: Number -> Number)
    ensures Bytes(EncodeValue(v), py) == Bytes(EncodeValue(v), ts) + Difference(v, py, ts)
    decreases v, 1
  {
    hide SpellNumber;
    match v
    case Arr(items) => ItemsDiffer(items, py, ts);
    case Obj(members) => MembersDiffer(members, py, ts);
    case _ =>
  }

  lemma {:induction false} ItemsDiffer(items: seq<Json>, py: Number -> Number, ts: Number -> Number)
    ensures ItemsBytes(EncodeValues(items), py) == ItemsBytes(EncodeValues(items), ts) + ItemsDifference(items, py, ts)
    decreases items, 0
  {
    if items != [] {
      hide Bytes, EncodeValue, Difference;
      BytesDiffer(items[0], py, ts);
      ItemsDiffer(items[1..], py, ts);
      assert EncodeValues(items)[1..] == EncodeValues(items[1..]);
    }
  }

  lemma {:induction false} MembersDiffer(members: seq<Member>, py: Number -> Number, ts: Number -> Number)
    ensures MembersBytes(EncodeMembers(members), py) == MembersBytes(EncodeMembers(members), ts) + MembersDifference(members, py, ts)
    decreases members, 0
  {
    if members != [] {
      hide Bytes, EncodeValue, Difference, StringBytes, Utf16;
      BytesDiffer(members[0].value, py, ts);
      MembersDiffer(members[1..], py, ts);
      assert EncodeMembers(members)[1..] == EncodeMembers(members[1..]);
    }
  }

  /******* Respelling and encoding *******/

  lemma {:induction false} RespellEncodes(v: Json, write: Number -> Number)
    requires ScalarValue(v) && Writer(write)
    ensures ScalarValue(Respell(v, write)) && EncodeValue(Respell(v, write)) == Respell(EncodeValue(v), write)
    decreases v, 1
  {
    match v
    case Arr(items) => RespellItemsEncodes(items, write);
    case Obj(members) => RespellMembersEncodes(members, write);
    case _ =>
  }

  lemma {:induction false} RespellItemsEncodes(items: seq<Json>, write: Number -> Number)
    requires ScalarItems(items) && Writer(write)
    ensures ScalarItems(RespellItems(items, write))
    ensures EncodeValues(RespellItems(items, write)) == RespellItems(EncodeValues(items), write)
    decreases items, 0
  {
    if items != [] {
      hide EncodeValue, Respell, ScalarValue, Writer;
      RespellEncodes(items[0], write);
      RespellItemsEncodes(items[1..], write);
      assert EncodeValues(items)[1..] == EncodeValues(items[1..]);
      assert RespellItems(items, write)[1..] == RespellItems(items[1..], write);
    }
  }

  lemma {:induction false} RespellMembersEncodes(members: seq<Member>, write: Number -> Number)
    requires ScalarMembers(members) && Writer(write)
    ensures ScalarMembers(RespellMembers(members, write))
    ensures EncodeMembers(RespellMembers(members, write)) == RespellMembers(EncodeMembers(members), write)
    decreases members, 0
  {
    if members != [] {
      hide EncodeValue, Respell, ScalarValue, Writer, Utf16, Scalars;
      RespellEncodes(members[0].value, write);
      RespellMembersEncodes(members[1..], write);
      assert EncodeMembers(members)[1..] == EncodeMembers(members[1..]);
      assert RespellMembers(members, write)[1..] == RespellMembers(members[1..], write);
    }
  }

  /******* The two sizes *******/

  function PySize(v: Json, py: Number -> Number): nat { |Utf8(Serialise(v, py))| }

  function TsSize(v: Json, ts: Number -> Number): nat { |Utf8OfUnits(Serialise(EncodeValue(v), ts))| }

  // One serialiser measures a value alike in both encodings.
  lemma SizeOfEncoded(v: Json, write: Number -> Number)
    requires ScalarValue(v) && Writer(write)
    ensures PySize(v, write) == TsSize(v, write)
  {
    hide Print, EncodeValue, ScalarValue, Respell, Writer, Utf8, Utf8OfUnits;
    RespellEncodes(v, write);
    PrintEncodes(Respell(v, write));
    Utf8OfUtf16(Print(Respell(v, write)));
  }

  // The size that Python measures exceeds the total that TypeScript counts by exactly what its numbers are longer,
  // so the two agree if and only if that is nothing.
  lemma SizesDiffer(v: Json, safe: Number -> bool, py: Number -> Number, ts: Number -> Number)
    requires ScalarValue(v) && Clean(v, safe) && Writer(py) && Writer(ts)
    ensures PySize(v, py) == TsSize(v, ts) + Difference(v, py, ts)
    ensures PySize(v, py) == TsSize(v, ts) <==> Difference(v, py, ts) == 0
    ensures TsSize(v, ts) == Bytes(EncodeValue(v), ts)
  {
    hide Print, EncodeValue, ScalarValue, Bytes, Sound, Clean, UnitsValue, Writer, Respell, Difference, Utf8, Utf8OfUnits, Serialise;
    EncodedFacts(v, safe);
    SizeOfEncoded(v, py);
    BytesArePrinted(EncodeValue(v), py, safe);
    BytesArePrinted(EncodeValue(v), ts, safe);
    BytesDiffer(v, py, ts);
  }

  ghost predicate PyAccepts(v: Json, safe: Number -> bool, py: Number -> Number) {
    Finite(v, safe) && PySize(v, py) <= HARD_MAX_BYTES
  }

  ghost predicate TsAccepts(v: Json, safe: Number -> bool, ts: Number -> Number) {
    var w := EncodeValue(v);
    Sound(w, safe) && Height(w) <= MAX_DEPTH && Count(w) <= MAX_NODES && TsSize(v, ts) <= HARD_MAX_BYTES
  }

  // With the same limit, TypeScript accepts what Python accepts but for the difference of the numbers.
  lemma AcceptanceDiffers(v: Json, safe: Number -> bool, py: Number -> Number, ts: Number -> Number)
    requires ScalarValue(v) && Writer(py) && Writer(ts)
    ensures TsAccepts(v, safe, ts) <==> Finite(v, safe) && PySize(v, py) - Difference(v, py, ts) <= HARD_MAX_BYTES
    ensures Difference(v, py, ts) == 0 ==> (PyAccepts(v, safe, py) <==> TsAccepts(v, safe, ts))
  {
    hide EncodeValue, ScalarValue, Sound, Clean, Height, Count, UnitsValue, Writer, Difference, PySize, TsSize;
    EncodedFacts(v, safe);
    if Clean(v, safe) {
      SizesDiffer(v, safe, py, ts);
    }
  }

  /******* Numbers that both languages spell alike *******/

  // An integer token other than -0.
  predicate PlainInteger(n: Number) {
    n.fraction == [] && n.exponent == NoExponent && !(n.minus && n.whole == [0x30])
  }

  // Both languages write safe integers as they are read.
  ghost predicate KeepsIntegers(write: Number -> Number, safe: Number -> bool) {
    forall n :: WfNumber(n) && PlainInteger(n) && safe(n) ==> write(n) == n
  }

  ghost predicate IntegersOnly(v: Json)
    decreases v, 1
  {
    match v
    case Num(n) => PlainInteger(n)
    case Arr(items) => IntegersOnlyItems(items)
    case Obj(members) => IntegersOnlyMembers(members)
    case _ => true
  }

  ghost predicate IntegersOnlyItems(items: seq<Json>)
    decreases items, 0
  {
    items == [] || (IntegersOnly(items[0]) && IntegersOnlyItems(items[1..]))
  }

  ghost predicate IntegersOnlyMembers(members: seq<Member>)
    decreases members, 0
  {
    members == [] || (IntegersOnly(members[0].value) && IntegersOnlyMembers(members[1..]))
  }

  lemma {:induction false} IntegersDoNotDiffer(v: Json, safe: Number -> bool, py: Number -> Number, ts: Number -> Number)
    requires ScalarValue(v) && Clean(v, safe) && IntegersOnly(v) && KeepsIntegers(py, safe) && KeepsIntegers(ts, safe)
    ensures Difference(v, py, ts) == 0
    decreases v, 1
  {
    match v
    case Arr(items) => IntegerItemsDoNotDiffer(items, safe, py, ts);
    case Obj(members) => IntegerMembersDoNotDiffer(members, safe, py, ts);
    case _ =>
  }

  lemma {:induction false} IntegerItemsDoNotDiffer(items: seq<Json>, safe: Number -> bool, py: Number -> Number, ts: Number -> Number)
    requires ScalarItems(items) && CleanItems(items, safe) && IntegersOnlyItems(items)
    requires KeepsIntegers(py, safe) && KeepsIntegers(ts, safe)
    ensures ItemsDifference(items, py, ts) == 0
    decreases items, 0
  {
    if items != [] {
      IntegersDoNotDiffer(items[0], safe, py, ts);
      IntegerItemsDoNotDiffer(items[1..], safe, py, ts);
    }
  }

  lemma {:induction false} IntegerMembersDoNotDiffer(members: seq<Member>, safe: Number -> bool, py: Number -> Number, ts: Number -> Number)
    requires ScalarMembers(members) && CleanMembers(members, safe) && IntegersOnlyMembers(members)
    requires KeepsIntegers(py, safe) && KeepsIntegers(ts, safe)
    ensures MembersDifference(members, py, ts) == 0
    decreases members, 0
  {
    if members != [] {
      IntegersDoNotDiffer(members[0].value, safe, py, ts);
      IntegerMembersDoNotDiffer(members[1..], safe, py, ts);
    }
  }

  // A value whose numbers are integer tokens other than -0 is measured and accepted alike.
  lemma IntegersAgree(v: Json, safe: Number -> bool, py: Number -> Number, ts: Number -> Number)
    requires ScalarValue(v) && IntegersOnly(v) && Writer(py) && Writer(ts) && KeepsIntegers(py, safe) && KeepsIntegers(ts, safe)
    ensures Clean(v, safe) ==> PySize(v, py) == TsSize(v, ts)
    ensures PyAccepts(v, safe, py) <==> TsAccepts(v, safe, ts)
  {
    hide EncodeValue, ScalarValue, Sound, Clean, Height, Count, Writer, Difference, PySize, TsSize, IntegersOnly, KeepsIntegers;
    AcceptanceDiffers(v, safe, py, ts);
    if Clean(v, safe) {
      IntegersDoNotDiffer(v, safe, py, ts);
      SizesDiffer(v, safe, py, ts);
    }
  }

  /******* A value that only one side accepts *******/

  // 0.00001, and how Python writes it: 1e-05.
  const TINY := Number(false, [0x30], [0x30, 0x30, 0x30, 0x30, 0x31], NoExponent)
  const PY_TINY := Number(false, [0x31], [], Exponent(0x65, [MINUS], [0x30, 0x35]))

  lemma TinySpellings()
    ensures WfNumber(TINY) && WfNumber(PY_TINY)
    ensures SpellNumber(TINY, []) == [0x30, POINT, 0x30, 0x30, 0x30, 0x30, 0x31]
    ensures SpellNumber(PY_TINY, []) == [0x31, 0x65, MINUS, 0x30, 0x35]
    ensures |SpellNumber(TINY, [])| == 7 && |SpellNumber(PY_TINY, [])| == 5
  {
  }

  function Letters(k: nat): Text { seq(k, _ => 0x61) }

  lemma {:induction false} LettersFacts(k: nat)
    ensures Scalars(Letters(k)) && Utf16(Letters(k)) == Letters(k) && ContentBytes(Letters(k)) == k
  {
    if k > 0 {
      LettersFacts(k - 1);
      assert Letters(k)[1..] == Letters(k - 1) && Letters(k) == [0x61] + Letters(k - 1);
    } else {
      assert Letters(0) == [];
    }
  }

  // An array of k letters and the number 0.00001.
  function LettersAndTiny(k: nat): Json { Arr([Str(Letters(k)), Num(TINY)]) }

  lemma LettersAndTinySizes(k: nat, py: Number -> Number, ts: Number -> Number)
    requires py(TINY) == PY_TINY && ts(TINY) == TINY
    ensures ScalarValue(LettersAndTiny(k))
    ensures Bytes(EncodeValue(LettersAndTiny(k)), ts) == k + 12 && Difference(LettersAndTiny(k), py, ts) == -2
    ensures Height(LettersAndTiny(k)) == 1 && Count(LettersAndTiny(k)) == 3
  {
    LettersFacts(k);
    TinySpellings();
    hide SpellNumber, WfNumber, Letters, Utf16, Scalars, ContentBytes, TINY;
    var a, b := Str(Letters(k)), Num(TINY);
    assert [a, b][1..] == [b] && [b][1..] == [];
    assert EncodeValues([b]) == [b] && EncodeValues([a, b]) == [a, b];
    assert ItemsBytes([b], ts) == 7 && ItemsBytes([a, b], ts) == (2 + k) + 1 + 7;
    assert ItemsDifference([b], py, ts) == -2 && ItemsDifference([a, b], py, ts) == -2;
    assert ItemsHeight([b]) == 1 && ItemsHeight([a, b]) == 1;
    assert ItemsCount([b]) == 1 && ItemsCount([a, b]) == 2;
    assert ScalarItems([b]) && ScalarItems([a, b]);
  }

  // With one size limit in both languages, Python accepts this value and TypeScript refuses it for its length.
  lemma OneSideRefuses(safe: Number -> bool, py: Number -> Number, ts: Number -> Number)
    requires Writer(py) && Writer(ts) && py(TINY) == PY_TINY && ts(TINY) == TINY && safe(TINY)
    ensures var v := LettersAndTiny(HARD_MAX_BYTES - 10);
      && PySize(v, py) == HARD_MAX_BYTES && TsSize(v, ts) == HARD_MAX_BYTES + 2
      && PyAccepts(v, safe, py) && !TsAccepts(v, safe, ts)
  {
    hide EncodeValue, ScalarValue, Bytes, Height, Count, Writer, Difference, PySize, TsSize, Letters, TINY;
    var v := LettersAndTiny(HARD_MAX_BYTES - 10);
    LettersAndTinySizes(HARD_MAX_BYTES - 10, py, ts);
    LettersAndTinyClean(HARD_MAX_BYTES - 10, safe);
    SizesDiffer(v, safe, py, ts);
    AcceptanceDiffers(v, safe, py, ts);
  }

  lemma LettersAndTinyClean(k: nat, safe: Number -> bool)
    requires safe(TINY)
    ensures Clean(LettersAndTiny(k), safe)
  {
    LettersFacts(k);
    hide TINY, Letters, Utf16, ContentBytes;
    var a, b := Str(Letters(k)), Num(TINY);
    assert [a, b][1..] == [b] && [b][1..] == [];
    assert CleanItems([b], safe) && CleanItems([a, b], safe);
  }
}
