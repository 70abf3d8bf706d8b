/**
 The imperative parts of vuoro_contracts/validation.py: the structural scan, the final check with
 its mutable counter, and their composition around json.loads.
 */
module TwoPassDecoder {
  import opened Unicode
  import opened JsonValues
  import opened JsonSyntax
  import opened JsonReading
  import opened TwoPass
  import opened StrictParser

  class Scanner {
    const text: Text
    var offset: nat
    var nodes: nat

    constructor (text: Text)
      ensures this.text == text && offset == 0 && nodes == 0
    {
      this.text := text;
      offset := 0;
      nodes := 0;
    }

    ghost predicate Valid()
      reads this
    {
      offset <= |text|
    }

    ghost function Rest(): Text
      requires Valid()
      reads this
    {
      text[offset..]
    }

    predicate Peek(c: int)
      reads this
    {
      offset < |text| && text[offset] == c
    }

    method Space()
      requires Valid()
      modifies `offset
      ensures Valid() && Rest() == SkipGap(old(Rest()))
    {
      while offset < |text| && Blank(text[offset])
        invariant Valid() && SkipGap(old(Rest())) == SkipGap(Rest())
      {
        Advance(text, offset, 1);
        offset := offset + 1;
      }
      if offset < |text| {
        Advance(text, offset, 0);
      }
    }

    // A quoted string with its escapes; surrogates are left to the final check.
    method ScanString() returns (ok: bool)
      requires Valid()
      modifies `offset
      ensures ok == (At(old(Rest()), QUOTE) && ParseElems(old(Rest())[1..]).Ok?)
      ensures ok ==> Valid() && Rest() == ParseElems(old(Rest())[1..]).rest
    {
      hide ParseElems;
      if !Peek(QUOTE) {
        return false;
      }
      Advance(text, offset, 1);
      offset := offset + 1;
      ghost var whole := ParseElems(Rest());
      ghost var acc: seq<Elem> := [];
      PushNothing(whole);
      while offset < |text|
        invariant Valid() && whole == PushElems(acc, ParseElems(Rest()))
      {
        ghost var here := Rest();
        Advance(text, offset, 1);
        ElemsStep(here);
        if text[offset] == QUOTE {
          offset := offset + 1;
          return true;
        }
        var one := ScanElem();
        if !one {
          return false;
        }
        ghost var e := ParseElem(here);
        PushElemsTwice(acc, [e.value], ParseElems(Rest()));
        acc := acc + [e.value];
      }
      ElemsStep([]);
      return false;
    }

    method ScanElem() returns (ok: bool)
      requires offset < |text|
      modifies `offset
      ensures var p := ParseElem(old(Rest())); ok == p.Ok? && (ok ==> Valid() && Rest() == p.rest)
      ensures ok ==> offset > old(offset)
    {
      ghost var here := Rest();
      var character := text[offset];
      if character == BACKSLASH {
        if offset + 1 >= |text| {
          return false;
        }
        Advance(text, offset, 2);
        var escape := text[offset + 1];
        if escape == 0x75 {
          if offset + 6 > |text| || exists i :: offset + 2 <= i < offset + 6 && !HexDigit(text[i]) {
            return false;
          }
          Advance(text, offset, 6);
          assert forall i :: 2 <= i < 6 ==> HexDigit(here[i]);
          offset := offset + 6;
          return true;
        }
        if !ShortMark(escape) {
          return false;
        }
        offset := offset + 2;
        return true;
      }
      Advance(text, offset, 1);
      if character < 0x20 {
        return false;
      }
      offset := offset + 1;
      return true;
    }

    method ScanDigits()
      requires Valid()
      modifies `offset
      ensures Valid() && Rest() == SkipRun(old(Rest()))
      ensures (Run(old(Rest())) == []) == (offset == old(offset))
    {
      hide Run, SkipRun;
      RunStep(Rest());
      while offset < |text| && Digit(text[offset])
        invariant Valid() && SkipRun(old(Rest())) == SkipRun(Rest())
        invariant old(offset) <= offset
        invariant (Run(old(Rest())) == []) == (offset == old(offset)) || offset == old(offset)
      {
        Advance(text, offset, 1);
        RunStep(Rest());
        offset := offset + 1;
      }
      if offset < |text| {
        Advance(text, offset, 0);
      }
      RunStep(Rest());
    }

    method ScanNumber() returns (ok: bool)
      requires Valid()
      modifies `offset
      ensures var p := ParseNumber(old(Rest())); ok == p.Ok? && (ok ==> Valid() && Rest() == p.rest)
    {
      hide Run, SkipRun, ParseWhole, ParseFraction, ParseExponent;
      if Peek(MINUS) {
        Advance(text, offset, 1);
        offset := offset + 1;
      }
      ok := ScanWhole();
      if ok {
        ok := ScanFraction();
      }
      if ok {
        ok := ScanExponent();
      }
    }

    method ScanWhole() returns (ok: bool)
      requires Valid()
      modifies `offset
      ensures var p := ParseWhole(old(Rest())); ok == p.Ok? && (ok ==> Valid() && Rest() == p.rest)
    {
      hide Run, SkipRun;
      ghost var s := Rest();
      RunStep(s);
      if offset >= |text| || !Digit(text[offset]) {
        return false;
      }
      Advance(text, offset, 1);
      var zero := text[offset] == 0x30;
      offset := offset + 1;
      RunStep(Rest());
      if zero {
        if offset < |text| && Digit(text[offset]) {
          assert s[1] == text[offset];
          return false;
        }
        return true;
      }
      ScanDigits();
      return true;
    }

    method ScanFraction() returns (ok: bool)
      requires Valid()
      modifies `offset
      ensures var p := ParseFraction(old(Rest())); ok == p.Ok? && (ok ==> Valid() && Rest() == p.rest)
    {
      hide Run, SkipRun;
      if !Peek(POINT) {
        return true;
      }
      Advance(text, offset, 1);
      offset := offset + 1;
      var start := offset;
      ScanDigits();
      return offset != start;
    }

    method ScanExponent() returns (ok: bool)
      requires Valid()
      modifies `offset
      ensures var p := ParseExponent(old(Rest())); ok == p.Ok? && (ok ==> Valid() && Rest() == p.rest)
    {
      hide Run, SkipRun;
      if !Peek(0x65) && !Peek(0x45) {
        return true;
      }
      Advance(text, offset, 1);
      offset := offset + 1;
      if Peek(PLUS) || Peek(MINUS) {
        Advance(text, offset, 1);
        offset := offset + 1;
      }
      var start := offset;
      ScanDigits();
      return offset != start;
    }

    method StartsWith(word: Text) returns (found: bool)
      requires Valid()
      modifies `offset
      ensures found == Starts(old(Rest()), word)
      ensures Valid() && Rest() == if found then old(Rest())[|word|..] else old(Rest())
    {
      if offset + |word| > |text| {
        return false;
      }
      assert text[offset..offset + |word|] == Rest()[..|word|];
      if text[offset..offset + |word|] != word {
        return false;
      }
      Advance(text, offset, |word|);
      offset := offset + |word|;
      return true;
    }

    method ScanValue(depth: nat) returns (ok: bool)
      requires Valid()
      modifies this
      ensures var p := ParseValue(old(Rest()), depth, old(nodes), SCAN_CONFIG);
        ok == p.Ok? && (ok ==> Valid() && Rest() == p.rest && nodes == p.nodes)
      decreases |text| - offset, 1
    {
      hide ParseElems, ParseNumber, ParseArray, ParseObject, Starts;
      nodes := nodes + 1;
      if depth > MAX_DEPTH || nodes > MAX_NODES || offset >= |text| {
        return false;
      }
      Advance(text, offset, 1);
      if text[offset] == QUOTE {
        ok := ScanString();
        return;
      }
      if text[offset] == OPEN_ARRAY {
        ok := ScanArray(depth);
        return;
      }
      if text[offset] == OPEN_OBJECT {
        ok := ScanObject(depth);
        return;
      }
      ok := StartsWith(TRUE);
      if ok { return; }
      ok := StartsWith(FALSE);
      if ok { return; }
      ok := StartsWith(NULL);
      if ok { return; }
      ok := ScanNumber();
    }

    method ScanArray(depth: nat) returns (ok: bool)
      requires offset < |text|
      modifies this
      ensures var p := ParseArray(old(Rest())[1..], depth, old(nodes), SCAN_CONFIG);
        ok == p.Ok? && (ok ==> Valid() && Rest() == p.rest && nodes == p.nodes)
      decreases |text| - offset, 0
    {
      hide ParseArray, ParseItems, ParseValue, SkipGap, Gap;
      ArrayStep(Rest()[1..], depth, nodes, SCAN_CONFIG);
      Advance(text, offset, 1);
      offset := offset + 1;
      ghost var gap := Gap(Rest());
      Space();
      if Peek(CLOSE_ARRAY) {
        Advance(text, offset, 1);
        offset := offset + 1;
        return true;
      }
      ghost var whole := ParseItems(gap, Rest(), depth, nodes, SCAN_CONFIG);
      ghost var acc: seq<Item> := [];
      PushNoItems(whole);
      while true
        invariant Valid() && offset > old(offset)
        invariant whole == PushItems(acc, ParseItems(gap, Rest(), depth, nodes, SCAN_CONFIG))
        decreases |text| - offset
      {
        ghost var item, next;
        var more;
        ok, more, item, next := ScanElement(depth, gap);
        if !ok || !more {
          return ok;
        }
        gap := next;
        PushItemsTwice(acc, item, ParseItems(gap, Rest(), depth, nodes, SCAN_CONFIG));
        acc := acc + [item];
      }
    }

    // One round of the element loop.
    method ScanElement(depth: nat, ghost gap: Text)
      returns (ok: bool, more: bool, ghost item: Item, ghost next: Text)
      requires Valid()
      modifies this
      ensures var p := ParseItems(gap, old(Rest()), depth, old(nodes), SCAN_CONFIG);
        if !ok then p.Bad?
        else
          && Valid() && offset > old(offset)
          && if more then p == PushItem(item, ParseItems(next, Rest(), depth, nodes, SCAN_CONFIG))
             else p == Ok([item], Rest(), nodes)
      decreases |text| - offset, 2
    {
      hide ParseItems, ParseValue, SkipGap, Gap;
      ghost var start, v := offset, ParseValue(Rest(), depth + 1, nodes, SCAN_CONFIG);
      ItemsStep(gap, Rest(), depth, nodes, SCAN_CONFIG);
      more, next, item := false, [], if v.Ok? then Item(gap, v.value, Gap(v.rest)) else Item([], Word(Null), []);
      ok := ScanValue(depth + 1);
      if !ok { return; }
      Space();
      if offset >= |text| {
        ok := false;
        return;
      }
      assert |Rest()| < |text| - start;
      Advance(text, offset, 1);
      var delimiter := text[offset];
      offset := offset + 1;
      if delimiter == CLOSE_ARRAY {
        return;
      }
      if delimiter != COMMA {
        ok := false;
        return;
      }
      next := Gap(Rest());
      Space();
      more := true;
    }

    method ScanObject(depth: nat) returns (ok: bool)
      requires offset < |text|
      modifies this
      ensures var p := ParseObject(old(Rest())[1..], depth, old(nodes), SCAN_CONFIG);
        ok == p.Ok? && (ok ==> Valid() && Rest() == p.rest && nodes == p.nodes)
      decreases |text| - offset, 0
    {
      hide ParseObject, ParsePairs, ParseValue, ParseName, SkipGap, Gap, Codes;
      ObjectStep(Rest()[1..], depth, nodes, SCAN_CONFIG);
      Advance(text, offset, 1);
      offset := offset + 1;
      ghost var gap, seen := Gap(Rest()), {};
      Space();
      if Peek(CLOSE_OBJECT) {
        Advance(text, offset, 1);
        offset := offset + 1;
        return true;
      }
      ghost var whole := ParsePairs(gap, Rest(), depth, nodes, SCAN_CONFIG, seen);
      ghost var acc: seq<Pair> := [];
      PushNoPairs(whole);
      while true
        invariant Valid() && offset > old(offset)
        invariant whole == PushPairs(acc, ParsePairs(gap, Rest(), depth, nodes, SCAN_CONFIG, seen))
        decreases |text| - offset
      {
        ghost var pair, next;
        var more;
        ok, more, pair, next := ScanMember(depth, gap, seen);
        if !ok || !more {
          return ok;
        }
        gap, seen := next, seen + {Codes(pair.key)};
        PushPairsTwice(acc, pair, ParsePairs(gap, Rest(), depth, nodes, SCAN_CONFIG, seen));
        acc := acc + [pair];
      }
    }

    // One round of the member loop.
    method ScanMember(depth: nat, ghost gap: Text, ghost seen: set<Text>)
      returns (ok: bool, more: bool, ghost pair: Pair, ghost next: Text)
      requires Valid()
      modifies this
      ensures var p := ParsePairs(gap, old(Rest()), depth, old(nodes), SCAN_CONFIG, seen);
        if !ok then p.Bad?
        else
          && Valid() && offset > old(offset)
          && if more then p == PushPair(pair, ParsePairs(next, Rest(), depth, nodes, SCAN_CONFIG, seen + {Codes(pair.key)}))
             else p == Ok([pair], Rest(), nodes)
      decreases |text| - offset, 2
    {
      hide ParsePairs, ParseValue, ParseName, SkipGap, Gap, Codes;
      ghost var start, name := offset, ParseName(gap, Rest(), SCAN_CONFIG, seen);
      PairsStep(gap, Rest(), depth, nodes, SCAN_CONFIG, seen);
      more, next, pair := false, [], if name.Ok? then name.value else Pair([], [], [], [], Word(Null), []);
      ok := ScanName(gap, seen);
      if !ok { return; }
      ghost var v := ParseValue(Rest(), depth + 1, nodes, SCAN_CONFIG);
      ok := ScanValue(depth + 1);
      if !ok { return; }
      pair := name.value.(value := v.value, after := Gap(v.rest));
      Space();
      if offset >= |text| {
        ok := false;
        return;
      }
      assert |Rest()| < |text| - start;
      Advance(text, offset, 1);
      var delimiter := text[offset];
      offset := offset + 1;
      if delimiter == CLOSE_OBJECT {
        return;
      }
      if delimiter != COMMA {
        ok := false;
        return;
      }
      next := Gap(Rest());
      Space();
      more := true;
    }

    method ScanName(ghost gap: Text, ghost seen: set<Text>) returns (ok: bool)
      requires Valid()
      modifies `offset
      ensures var p := ParseName(gap, old(Rest()), SCAN_CONFIG, seen);
        ok == p.Ok? && (ok ==> Valid() && Rest() == p.rest && offset > old(offset))
    {
      hide ParseElems, SkipGap, Gap;
      ghost var start := offset;
      ok := ScanString();
      if !ok { return; }
      Space();
      if !Peek(COLON) {
        return false;
      }
      Advance(text, offset, 1);
      offset := offset + 1;
      Space();
      assert |Rest()| < |text| - start;
    }

    // Succeeds exactly on the documents within the limits, having counted their values.
    method Scan() returns (ok: bool)
      requires offset == 0 && nodes == 0
      modifies this
      ensures var p := ParseDocument(text, SCAN_CONFIG); ok == p.Ok? && (ok ==> nodes == p.nodes)
    {
      hide ParseValue, SkipGap, Gap;
      assert Rest() == text;
      Space();
      ok := ScanValue(0);
      if ok {
        Space();
        ok := offset == |text|;
      }
    }
  }

  lemma ElemsStep(s: Text)
    ensures s == [] ==> ParseElems(s).Bad?
    ensures At(s, QUOTE) ==> ParseElems(s) == Ok([], s[1..], 0)
    ensures s != [] && !At(s, QUOTE) ==>
      ParseElems(s) ==
      if ParseElem(s).Bad? then Bad else PushElems([ParseElem(s).value], ParseElems(ParseElem(s).rest))
  {
  }

  // _finite_json: the counter is shared by the whole recursion.
  class FiniteCheck {
    const safe: Number -> bool
    var nodes: nat

    constructor (safe: Number -> bool)
      ensures this.safe == safe && nodes == 0
    {
      this.safe := safe;
      nodes := 0;
    }

    ghost predicate Fits(depth: nat, height: nat, before: nat, count: nat) {
      depth + height <= MAX_DEPTH && before + count <= MAX_NODES
    }

    method Check(v: Json, depth: nat) returns (ok: bool)
      modifies this
      ensures ok == (Clean(v, safe) && Fits(depth, Height(v), old(nodes), Count(v)))
      ensures ok ==> nodes == old(nodes) + Count(v)
      decreases v, 1
    {
      nodes := nodes + 1;
      if depth > MAX_DEPTH || nodes > MAX_NODES {
        return false;
      }
      match v
      case Str(s) => ok := CheckText(s);
      case Num(n) => ok := safe(n);
      case Arr(items) => ok := CheckItems(items, depth);
      case Obj(members) => ok := CheckMembers(members, depth);
      case _ => ok := true;
    }

    method CheckText(s: Text) returns (ok: bool)
      ensures ok == NoSurrogate(s)
    {
      ok := !exists i :: 0 <= i < |s| && Surrogate(s[i]);
    }

    method CheckItems(items: seq<Json>, depth: nat) returns (ok: bool)
      requires depth <= MAX_DEPTH && nodes <= MAX_NODES
      modifies this
      ensures ok == (CleanItems(items, safe) && Fits(depth, ItemsHeight(items), old(nodes), ItemsCount(items)))
      ensures ok ==> nodes == old(nodes) + ItemsCount(items)
      decreases items, 0
    {
      if items == [] {
        return true;
      }
      ok := Check(items[0], depth + 1);
      if ok {
        ok := CheckItems(items[1..], depth);
      }
    }

    method CheckMembers(members: seq<Member>, depth: nat) returns (ok: bool)
      requires depth <= MAX_DEPTH && nodes <= MAX_NODES
      modifies this
      ensures ok == (CleanMembers(members, safe) && Fits(depth, MembersHeight(members), old(nodes), MembersCount(members)))
      ensures ok ==> nodes == old(nodes) + MembersCount(members)
      decreases members, 0
    {
      if members == [] {
        return true;
      }
      ok := CheckText(members[0].key);
      if ok {
        ok := Check(members[0].value, depth + 1);
      }
      if ok {
        ok := CheckMembers(members[1..], depth);
      }
    }
  }

  // parse_json on decoded text; `loaded` is what json.loads answers for it.
  method ParseText(text: Text, loaded: Outcome<Json>, decodes: Number -> bool, safe: Number -> bool)
    returns (r: Outcome<Json>)
    requires loaded == Loads(text, decodes)
    ensures r == DecodeText(text, decodes, safe)
  {
    var scanner := new Scanner(text);
    var scanned := scanner.Scan();
    if !scanned || loaded.No? {
      return No;
    }
    var check := new FiniteCheck(safe);
    var finite := check.Check(loaded.value, 0);
    return if finite then loaded else No;
  }
}
