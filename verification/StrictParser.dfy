/**
 The one-pass parser of tools/contracts/templates/strict-json.ts over UTF-16 code units.

 Every method is proved against the parser function it implements: it fails exactly when that
 function does, and otherwise leaves the same rest of the text and the same node count.
 */
module StrictParser {
  import opened Unicode
  import opened JsonValues
  import opened JsonSyntax
  import opened JsonGrammar
  import opened JsonReading

  // Reading a list of elements in front of a result.
  function PushElems(acc: seq<Elem>, r: Parsed<seq<Elem>>): Parsed<seq<Elem>> {
    match r
    case Bad => Bad
    case Ok(es, rest, n) => Ok(acc + es, rest, n)
  }

  lemma PushElemsTwice(acc: seq<Elem>, more: seq<Elem>, r: Parsed<seq<Elem>>)
    ensures PushElems(acc, PushElems(more, r)) == PushElems(acc + more, r)
  {
    if r.Ok? {
      assert acc + (more + r.value) == (acc + more) + r.value;
    }
  }

  // One step of reading a strict string: an element that is no surrogate, or a pair written one way.
  lemma QuotedStep(s: Text, cfg: Config)
    requires s != [] && s[0] != QUOTE && cfg.policy.Strict?
    ensures var e := ParseElem(s);
      ParseQuoted(s, cfg) ==
      if e.Bad? || Low(Code(e.value)) then Bad
      else if !High(Code(e.value)) then PushElems([e.value], ParseQuoted(e.rest, cfg))
      else
        var f := ParseElem(e.rest);
        if !At(e.rest, QUOTE) && f.Ok? && Low(Code(f.value)) && e.value.Hex? == f.value.Hex? then
          PushElems([e.value, f.value], ParseQuoted(f.rest, cfg))
        else Bad
  {
    hide ParseElem, Code;
    var e := ParseElem(s);
    if e.Ok? {
      var r := ParseElems(e.rest);
      var f := ParseElem(e.rest);
      if r.Ok? {
        var all := [e.value] + r.value;
        assert ParseElems(s) == Ok(all, r.rest, r.nodes);
        assert all[1..] == r.value;
        assert Paired(all) ==
          if High(Code(e.value)) then |all| > 1 && Low(Code(all[1])) && e.value.Hex? == all[1].Hex? && Paired(all[2..])
          else !Low(Code(e.value)) && Paired(r.value);
        if !At(e.rest, QUOTE) {
          assert r.value == [f.value] + ParseElems(f.rest).value;
          assert all == [e.value, f.value] + ParseElems(f.rest).value;
          assert all[2..] == ParseElems(f.rest).value;
        }
      } else if f.Ok? && !At(e.rest, QUOTE) {
        assert ParseElems(f.rest).Bad?;
      }
    }
  }

  lemma {:induction false} CodesConcat(a: seq<Elem>, b: seq<Elem>)
    ensures Codes(a + b) == Codes(a) + Codes(b)
  {
    if a == [] {
      assert a + b == b;
    } else {
      assert (a + b)[1..] == a[1..] + b;
      CodesConcat(a[1..], b);
    }
  }

  lemma RunStep(s: Text)
    ensures s != [] && Digit(s[0]) ==> Run(s) == [s[0]] + Run(s[1..]) && SkipRun(s) == SkipRun(s[1..])
    ensures s == [] || !Digit(s[0]) ==> Run(s) == [] && SkipRun(s) == s
  {
  }

  // The rest of a text after `k` more codes.
  lemma Advance(text: Text, offset: nat, k: nat)
    requires offset + k <= |text|
    ensures text[offset..][k..] == text[offset + k..]
    ensures forall i :: 0 <= i < |text| - offset ==> text[offset..][i] == text[offset + i]
  {
  }

  class Parser {
    const text: Text
    const admits: Number -> bool
    var offset: nat
    var nodes: nat

    constructor (text: Text, admits: Number -> bool)
      ensures this.text == text && this.admits == admits && offset == 0 && nodes == 0
    {
      this.text := text;
      this.admits := admits;
      offset := 0;
      nodes := 0;
    }

    ghost predicate Valid()
      reads this
    {
      offset <= |text|
    }

    ghost function Rest(): Text
      requires Valid()
      reads this
    {
      text[offset..]
    }

    ghost function Cfg(): Config { StrictConfig(admits) }

    // charCodeAt: outside the text it answers a code that no test recognises.
    function CharCodeAt(i: nat): (c: int)
      ensures i < |text| ==> c == text[i]
      ensures i >= |text| ==> c == -1
    {
      if i < |text| then text[i] else -1
    }

    method Space()
      requires Valid()
      modifies `offset
      ensures Valid() && Rest() == SkipGap(old(Rest()))
    {
      while offset < |text|
        invariant Valid() && SkipGap(old(Rest())) == SkipGap(Rest())
      {
        Advance(text, offset, 1);
        var c := CharCodeAt(offset);
        if c == 0x20 || c == 0x09 || c == 0x0A || c == 0x0D {
          offset := offset + 1;
        } else {
          break;
        }
      }
    }

    method Take(literal: Text) returns (taken: bool)
      requires Valid()
      modifies `offset
      ensures taken == Starts(old(Rest()), literal)
      ensures Valid() && Rest() == if taken then old(Rest())[|literal|..] else old(Rest())
    {
      var end := if offset + |literal| <= |text| then offset + |literal| else |text|;
      assert text[offset..end] == Rest()[..end - offset];
      if text[offset..end] != literal {
        return false;
      }
      Advance(text, offset, |literal|);
      offset := end;
      return true;
    }

    method Hex4() returns (r: Outcome<int>)
      requires Valid()
      modifies `offset
      ensures var s := old(Rest());
        r.Yes? <==> |s| >= 4 && HexDigit(s[0]) && HexDigit(s[1]) && HexDigit(s[2]) && HexDigit(s[3])
      ensures var s := old(Rest());
        r.Yes? ==> r.value == Code(Hex(s[0], s[1], s[2], s[3])) && Valid() && Rest() == s[4..]
    {
      ghost var s := Rest();
      if offset + 4 > |text| {
        return No;
      }
      Advance(text, offset, 4);
      ghost var start := offset;
      var value := 0;
      for i := 0 to 4
        invariant offset == start + i && Valid()
        invariant forall k :: 0 <= k < i ==> HexDigit(s[k])
        invariant value == HexPrefix(s, i)
      {
        var c := CharCodeAt(offset);
        offset := offset + 1;
        var digit: int;
        if c >= 0x30 && c <= 0x39 {
          digit := c - 0x30;
        } else if c >= 0x41 && c <= 0x46 {
          digit := c - 0x41 + 10;
        } else if c >= 0x61 && c <= 0x66 {
          digit := c - 0x61 + 10;
        } else {
          assert !HexDigit(s[i]);
          return No;
        }
        value := value * 16 + digit;
      }
      assert value == HexPrefix(s, 4) == (HexPrefix(s, 2) * 16 + HexValue(s[2])) * 16 + HexValue(s[3]);
      return Yes(value);
    }

    static ghost function HexPrefix(s: Text, k: nat): int
      requires k <= 4 <= |s|
    {
      if k == 0 then 0 else HexPrefix(s, k - 1) * 16 + HexValue(s[k - 1])
    }

    // Reads the hexadecimal escape that starts with the two codes before the offset.
    // `step` is the element read, or the two elements of a surrogate pair.
    method HexEscape() returns (r: Outcome<Text>, ghost step: seq<Elem>)
      requires Valid() && 2 <= offset && text[offset - 2] == BACKSLASH && text[offset - 1] == 0x75
      modifies `offset
      ensures r.No? ==> ParseQuoted(text[old(offset) - 2..], Cfg()).Bad?
      ensures r.Yes? ==>
        && Valid() && offset > old(offset) && r.value == Codes(step)
        && ParseQuoted(text[old(offset) - 2..], Cfg()) == PushElems(step, ParseQuoted(Rest(), Cfg()))
    {
      hide Code, Codes, ParseQuoted, ParseElem, HexDigit, PushElems;
      ghost var here := text[offset - 2..];
      Advance(text, offset - 2, 2);
      assert Starts(here, [BACKSLASH, 0x75]);
      step := [];
      QuotedStep(here, Cfg());
      HexElem(here);
      var first := Hex4();
      if first.No? {
        return No, step;
      }
      ghost var e := ParseElem(here).value;
      ghost var next := Rest();
      if High(first.value) {
        var second := LowEscape();
        if second.No? {
          return No, step;
        }
        ghost var f := ParseElem(next).value;
        step := [e, f];
        TwoCodes(e, f);
        return Yes([first.value, second.value]), step;
      }
      if Low(first.value) {
        return No, step;
      }
      step := [e];
      OneCode(e);
      return Yes([first.value]), step;
    }

    // Reads the escape of a low surrogate.
    method LowEscape() returns (r: Outcome<int>)
      requires Valid()
      modifies `offset
      ensures var f := ParseElem(old(Rest()));
        && (r.Yes? <==> f.Ok? && f.value.Hex? && Low(Code(f.value)))
        && (r.Yes? ==> r.value == Code(f.value) && Valid() && Rest() == f.rest && offset > old(offset))
      ensures r.Yes? ==> !At(old(Rest()), QUOTE)
    {
      hide Code, ParseElem, HexDigit;
      HexElem(Rest());
      assert Starts(Rest(), [BACKSLASH, 0x75]) ==> Rest()[0] == Rest()[..2][0];
      var escaped := Take([BACKSLASH, 0x75]);
      if !escaped {
        return No;
      }
      var second := Hex4();
      if second.No? || !Low(second.value) {
        return No;
      }
      return second;
    }

    // Reads an escape after its backslash.
    method Escape() returns (r: Outcome<Text>, ghost step: seq<Elem>)
      requires Valid() && 1 <= offset && text[offset - 1] == BACKSLASH
      modifies `offset
      ensures r.No? ==> ParseQuoted(text[old(offset) - 1..], Cfg()).Bad?
      ensures r.Yes? ==>
        && Valid() && offset > old(offset) && r.value == Codes(step)
        && ParseQuoted(text[old(offset) - 1..], Cfg()) == PushElems(step, ParseQuoted(Rest(), Cfg()))
    {
      hide Code, Codes, ParseQuoted, ParseElem, ShortCode;
      ghost var here := text[offset - 1..];
      step := [];
      QuotedStep(here, Cfg());
      EscapeElem(here);
      if offset >= |text| {
        return No, step;
      }
      Advance(text, offset - 1, 2);
      var escape := CharCodeAt(offset);
      offset := offset + 1;
      if escape == 0x75 {
        r, step := HexEscape();
        return r, step;
      }
      if !ShortMark(escape) {
        return No, step;
      }
      step := [Short(escape)];
      ShortCodes(escape);
      return Yes([ShortCode(escape)]), step;
    }

    // Reads a literal code, or the two of a surrogate pair.
    method Literal() returns (ok: bool, ghost step: seq<Elem>)
      requires offset < |text| && text[offset] != QUOTE && text[offset] != BACKSLASH
      modifies `offset
      ensures !ok ==> ParseQuoted(text[old(offset)..], Cfg()).Bad?
      ensures ok ==>
        && Valid() && offset > old(offset) && Codes(step) == text[old(offset)..offset]
        && ParseQuoted(text[old(offset)..], Cfg()) == PushElems(step, ParseQuoted(Rest(), Cfg()))
    {
      hide Code, Codes, ParseQuoted, ParseElem;
      ghost var here := Rest();
      Advance(text, offset, 1);
      var c := CharCodeAt(offset);
      step := [Raw(c)];
      QuotedStep(here, Cfg());
      RawElem(here);
      if c < 0x20 {
        return false, step;
      }
      if High(c) {
        var next := CharCodeAt(offset + 1);
        RawLow(here[1..]);
        if !Low(next) {
          return false, step;
        }
        Advance(text, offset, 2);
        step := [Raw(c), Raw(next)];
        offset := offset + 2;
      } else if Low(c) {
        return false, step;
      } else {
        offset := offset + 1;
      }
      RawCodes(step);
      return true, step;
    }

    // Reads after the opening quote.
    method String() returns (r: Outcome<Text>)
      requires Valid()
      modifies `offset
      ensures match ParseQuoted(old(Rest()), Cfg())
        case Bad => r.No?
        case Ok(elems, rest, _) => r == Yes(Codes(elems)) && Valid() && Rest() == rest
    {
      hide ParseQuoted, Codes, ParseElem, Code;
      ghost var whole := ParseQuoted(Rest(), Cfg());
      ghost var acc: seq<Elem> := [];
      PushNothing(whole);
      var result: Text := [];
      var start: nat := offset;
      while offset < |text|
        invariant Valid() && start <= offset
        invariant whole == PushElems(acc, ParseQuoted(Rest(), Cfg()))
        invariant Codes(acc) == result + text[start..offset]
      {
        ghost var here, before := Rest(), acc;
        Advance(text, offset, 1);
        var c := CharCodeAt(offset);
        if c == QUOTE {
          QuotedEnd(here, Cfg());
          result := result + text[start..offset];
          offset := offset + 1;
          assert acc + [] == acc;
          return Yes(result);
        }
        if c == BACKSLASH {
          result := result + text[start..offset];
          offset := offset + 1;
          assert text[offset - 1..] == here;
          var escaped, step := Escape();
          if escaped.No? {
            return No;
          }
          result := result + escaped.value;
          acc := acc + step;
          CodesConcat(before, step);
          PushElemsTwice(before, step, ParseQuoted(Rest(), Cfg()));
          start := offset;
          assert text[start..offset] == [];
          continue;
        }
        var ok, step := Literal();
        if !ok {
          return No;
        }
        acc := acc + step;
        CodesConcat(before, step);
        PushElemsTwice(before, step, ParseQuoted(Rest(), Cfg()));
      }
      QuotedOpen(Cfg());
      return No;
    }

    method SkipDigits()
      requires Valid()
      modifies `offset
      ensures Valid() && offset >= old(offset)
      ensures Rest() == SkipRun(old(Rest())) && text[old(offset)..offset] == Run(old(Rest()))
    {
      hide Run, SkipRun;
      while Digit(CharCodeAt(offset))
        invariant Valid() && offset >= old(offset)
        invariant SkipRun(old(Rest())) == SkipRun(Rest())
        invariant Run(old(Rest())) == text[old(offset)..offset] + Run(Rest())
        decreases |text| - offset
      {
        Advance(text, offset, 1);
        RunStep(Rest());
        ghost var before, digit := text[old(offset)..offset], text[offset];
        offset := offset + 1;
        assert text[old(offset)..offset] == before + [digit];
        assert before + ([digit] + Run(Rest())) == before + [digit] + Run(Rest());
      }
      RunStep(Rest());
    }

    method Number() returns (r: Outcome<Number>)
      requires Valid()
      modifies `offset
      ensures var p := ParseNumber(old(Rest()));
        if p.Ok? && admits(p.value) then r == Yes(p.value) && Valid() && Rest() == p.rest else r.No?
    {
      hide ParseWhole, ParseFraction, ParseExponent, SkipRun, Run;
      var minus := CharCodeAt(offset) == MINUS;
      if minus {
        Advance(text, offset, 1);
        offset := offset + 1;
      }
      var whole := Whole();
      if whole.No? {
        return No;
      }
      var fraction := Fraction();
      if fraction.No? {
        return No;
      }
      var exponent := Exponent();
      if exponent.No? {
        return No;
      }
      var number := JsonValues.Number(minus, whole.value, fraction.value, exponent.value);
      return if admits(number) then Yes(number) else No;
    }

    method Whole() returns (r: Outcome<Text>)
      requires Valid()
      modifies `offset
      ensures match ParseWhole(old(Rest()))
        case Bad => r.No?
        case Ok(digits, rest, _) => r == Yes(digits) && Valid() && Rest() == rest
    {
      ghost var s := Rest();
      var start := offset;
      var first := CharCodeAt(offset);
      if first == 0x30 {
        Advance(text, offset, 1);
        offset := offset + 1;
        if Digit(CharCodeAt(offset)) {
          assert s[1] == text[offset];
          return No;
        }
        assert Run(s[1..]) == [] && SkipRun(s[1..]) == s[1..];
        assert text[start..offset] == [first] == [first] + Run(s[1..]) == Run(s);
      } else if 0x31 <= first <= 0x39 {
        Advance(text, offset, 1);
        offset := offset + 1;
        SkipDigits();
        assert text[start..offset] == [first] + text[start + 1..offset] == Run(s);
      } else {
        return No;
      }
      return Yes(text[start..offset]);
    }

    method Fraction() returns (r: Outcome<Text>)
      requires Valid()
      modifies `offset
      ensures match ParseFraction(old(Rest()))
        case Bad => r.No?
        case Ok(digits, rest, _) => r == Yes(digits) && Valid() && Rest() == rest
    {
      if CharCodeAt(offset) != POINT {
        return Yes([]);
      }
      Advance(text, offset, 1);
      offset := offset + 1;
      var start := offset;
      if !Digit(CharCodeAt(offset)) {
        return No;
      }
      SkipDigits();
      return Yes(text[start..offset]);
    }

    method Exponent() returns (r: Outcome<Exponent>)
      requires Valid()
      modifies `offset
      ensures match ParseExponent(old(Rest()))
        case Bad => r.No?
        case Ok(e, rest, _) => r == Yes(e) && Valid() && Rest() == rest
    {
      var mark := CharCodeAt(offset);
      if mark != 0x65 && mark != 0x45 {
        return Yes(NoExponent);
      }
      Advance(text, offset, 1);
      offset := offset + 1;
      var sign := CharCodeAt(offset);
      var signed := sign == PLUS || sign == MINUS;
      if signed {
        Advance(text, offset, 1);
        offset := offset + 1;
      }
      var start := offset;
      if !Digit(CharCodeAt(offset)) {
        return No;
      }
      SkipDigits();
      return Yes(JsonValues.Exponent(mark, if signed then [sign] else [], text[start..offset]));
    }

    method Value(depth: nat) returns (r: Outcome<Json>)
      requires Valid()
      modifies this
      ensures match ParseValue(old(Rest()), depth, old(nodes), Cfg())
        case Bad => r.No?
        case Ok(t, rest, n) => r == Yes(Denote(t, UnitView)) && Valid() && Rest() == rest && nodes == n
      decreases |text| - offset, 1
    {
      hide ParseQuoted, ParseScalar, ParseArray, ParseObject, Starts;
      ghost var s := Rest();
      if depth > MAX_DEPTH {
        return No;
      }
      nodes := nodes + 1;
      if nodes > MAX_NODES {
        return No;
      }
      var c := CharCodeAt(offset);
      if c == QUOTE {
        Advance(text, offset, 1);
        offset := offset + 1;
        var str := String();
        return if str.Yes? then Yes(Str(str.value)) else No;
      }
      if c == OPEN_OBJECT {
        r := ReadObject(depth);
        return;
      }
      if c == OPEN_ARRAY {
        r := ReadArray(depth);
        return;
      }
      if offset >= |text| {
        return No;
      }
      r := Scalar(c);
    }

    // The literal names and the numbers.
    method Scalar(c: int) returns (r: Outcome<Json>)
      requires Valid() && offset < |text| && c == text[offset]
      modifies `offset
      ensures match ParseScalar(old(Rest()), nodes, Cfg())
        case Bad => r.No?
        case Ok(t, rest, n) => r == Yes(Denote(t, UnitView)) && Valid() && Rest() == rest && nodes == n
    {
      hide ParseNumber;
      ghost var s := Rest();
      Advance(text, offset, 0);
      WordStart(s);
      if c == 0x74 {
        var taken := Take(TRUE);
        if taken { return Yes(Bool(true)); }
      }
      if c == 0x66 {
        var taken := Take(FALSE);
        if taken { return Yes(Bool(false)); }
      }
      if c == 0x6E {
        var taken := Take(NULL);
        if taken { return Yes(Null); }
      }
      if c == MINUS || Digit(c) {
        var number := Number();
        return if number.Yes? then Yes(Num(number.value)) else No;
      }
      return No;
    }

    method ReadArray(depth: nat) returns (r: Outcome<Json>)
      requires offset < |text|
      modifies this
      ensures match ParseArray(old(Rest())[1..], depth, old(nodes), Cfg())
        case Bad => r.No?
        case Ok(t, rest, n) => r == Yes(Denote(t, UnitView)) && Valid() && Rest() == rest && nodes == n
      decreases |text| - offset, 0
    {
      hide ParseArray, ParseItems, SkipGap, Gap, Denote, DenoteItems;
      ArrayStep(Rest()[1..], depth, nodes, Cfg());
      Advance(text, offset, 1);
      offset := offset + 1;
      ghost var gap := Gap(Rest());
      Space();
      if CharCodeAt(offset) == CLOSE_ARRAY {
        Advance(text, offset, 1);
        offset := offset + 1;
        DenoteEmpty(gap);
        return Yes(Arr([]));
      }
      ghost var whole := ParseItems(gap, Rest(), depth, nodes, Cfg());
      ghost var acc: seq<Item> := [];
      PushNoItems(whole);
      var result: seq<Json> := [];
      DenoteNothing();
      while true
        invariant Valid() && offset > old(offset)
        invariant whole == PushItems(acc, ParseItems(gap, Rest(), depth, nodes, Cfg()))
        invariant result == DenoteItems(acc, UnitView)
        decreases |text| - offset
      {
        var child, more, item, next := Element(depth, gap);
        if child.No? {
          return No;
        }
        result := result + [child.value];
        DenoteItemsPush(acc, item, UnitView);
        if !more {
          DenoteArray(acc + [item]);
          return Yes(Arr(result));
        }
        gap := next;
        PushItemsTwice(acc, item, ParseItems(gap, Rest(), depth, nodes, Cfg()));
        acc := acc + [item];
      }
    }

    // One round of the item loop: a value, then the bracket that ends the array or the comma before the next value.
    method Element(depth: nat, ghost gap: Text)
      returns (r: Outcome<Json>, more: bool, ghost item: Item, ghost next: Text)
      requires Valid()
      modifies this
      ensures var p := ParseItems(gap, old(Rest()), depth, old(nodes), Cfg());
        if r.No? then p.Bad?
        else
          && Valid() && offset > old(offset) && r.value == Denote(item.value, UnitView)
          && if more then p == PushItem(item, ParseItems(next, Rest(), depth, nodes, Cfg()))
             else p == Ok([item], Rest(), nodes)
      decreases |text| - offset, 2
    {
      hide ParseItems, ParseValue, SkipGap, Gap, Denote;
      ghost var start, here, n := offset, Rest(), nodes;
      ItemsStep(gap, here, depth, nodes, Cfg());
      more, next := false, [];
      r := Value(depth + 1);
      ghost var v := ParseValue(here, depth + 1, n, Cfg());
      item := if v.Ok? then Item(gap, v.value, Gap(v.rest)) else Item([], Word(Null), []);
      if r.No? {
        return;
      }
      assert offset > start;
      Space();
      var delimiter := CharCodeAt(offset);
      if offset < |text| { Advance(text, offset, 1); }
      assert |Rest()| < |text| - start;
      if delimiter == CLOSE_ARRAY {
        offset := offset + 1;
        return;
      }
      if delimiter != COMMA {
        r := No;
        return;
      }
      offset := offset + 1;
      next := Gap(Rest());
      Space();
      more := true;
    }

    method ReadObject(depth: nat) returns (r: Outcome<Json>)
      requires offset < |text|
      modifies this
      ensures match ParseObject(old(Rest())[1..], depth, old(nodes), Cfg())
        case Bad => r.No?
        case Ok(t, rest, n) => r == Yes(Denote(t, UnitView)) && Valid() && Rest() == rest && nodes == n
      decreases |text| - offset, 0
    {
      hide ParseObject, ParsePairs, SkipGap, Gap, Codes, Denote, DenotePairs;
      ObjectStep(Rest()[1..], depth, nodes, Cfg());
      Advance(text, offset, 1);
      offset := offset + 1;
      ghost var gap := Gap(Rest());
      Space();
      if CharCodeAt(offset) == CLOSE_OBJECT {
        Advance(text, offset, 1);
        offset := offset + 1;
        DenoteEmpty(gap);
        return Yes(Obj([]));
      }
      var keys: set<Text> := {};
      ghost var whole := ParsePairs(gap, Rest(), depth, nodes, Cfg(), keys);
      ghost var acc: seq<Pair> := [];
      PushNoPairs(whole);
      var result: seq<Member> := [];
      DenoteNothing();
      while true
        invariant Valid() && offset > old(offset)
        invariant whole == PushPairs(acc, ParsePairs(gap, Rest(), depth, nodes, Cfg(), keys))
        invariant result == DenotePairs(acc, UnitView)
        decreases |text| - offset
      {
        var member, more, pair, next := ReadMember(depth, keys, gap);
        if member.No? {
          return No;
        }
        result := result + [member.value];
        DenotePairsPush(acc, pair, UnitView);
        if !more {
          DenoteObject(acc + [pair]);
          return Yes(Obj(result));
        }
        keys := keys + {member.value.key};
        gap := next;
        PushPairsTwice(acc, pair, ParsePairs(gap, Rest(), depth, nodes, Cfg(), keys));
        acc := acc + [pair];
      }
    }

    // One round of the member loop.
    method ReadMember(depth: nat, keys: set<Text>, ghost gap: Text)
      returns (r: Outcome<Member>, more: bool, ghost pair: Pair, ghost next: Text)
      requires Valid()
      modifies this
      ensures var p := ParsePairs(gap, old(Rest()), depth, old(nodes), Cfg(), keys);
        if r.No? then p.Bad?
        else
          && Valid() && offset > old(offset) && r.value == Member(Codes(pair.key), Denote(pair.value, UnitView))
          && if more then p == PushPair(pair, ParsePairs(next, Rest(), depth, nodes, Cfg(), keys + {r.value.key}))
             else p == Ok([pair], Rest(), nodes)
      decreases |text| - offset, 2
    {
      hide ParsePairs, ParseValue, ParseName, SkipGap, Gap, Denote, Codes;
      ghost var start := offset;
      PairsStep(gap, Rest(), depth, nodes, Cfg(), keys);
      ghost var name := ParseName(gap, Rest(), Cfg(), keys);
      more, next, pair := false, [], if name.Ok? then name.value else Pair([], [], [], [], Word(Null), []);
      var key := Name(keys, gap);
      if key.No? {
        return No, more, pair, next;
      }
      ghost var v := ParseValue(Rest(), depth + 1, nodes, Cfg());
      var child := Value(depth + 1);
      if child.No? {
        return No, more, pair, next;
      }
      assert |Rest()| < |text| - start;
      pair := name.value.(value := v.value, after := Gap(v.rest));
      r := Yes(Member(key.value, child.value));
      Space();
      var delimiter := CharCodeAt(offset);
      if offset < |text| { Advance(text, offset, 1); }
      assert |Rest()| < |text| - start;
      if delimiter == CLOSE_OBJECT {
        offset := offset + 1;
        return;
      }
      if delimiter != COMMA {
        r := No;
        return;
      }
      offset := offset + 1;
      next := Gap(Rest());
      Space();
      more := true;
    }

    // A member's name and its colon, with the white space after it.
    method Name(keys: set<Text>, ghost gap: Text) returns (r: Outcome<Text>)
      requires Valid()
      modifies `offset
      ensures match ParseName(gap, old(Rest()), Cfg(), keys)
        case Bad => r.No?
        case Ok(p, rest, _) => r == Yes(Codes(p.key)) && Valid() && Rest() == rest && offset > old(offset)
    {
      hide ParseName, ParseQuoted, Codes, SkipGap, Gap;
      ghost var start := offset;
      NameStep(gap, Rest(), Cfg(), keys);
      if CharCodeAt(offset) != QUOTE {
        return No;
      }
      Advance(text, offset, 1);
      offset := offset + 1;
      var key := String();
      if key.No? || key.value in keys {
        return No;
      }
      Space();
      if CharCodeAt(offset) != COLON {
        return No;
      }
      Advance(text, offset, 1);
      offset := offset + 1;
      Space();
      assert |Rest()| < |text| - start;
      return key;
    }

    method Parse() returns (r: Outcome<Json>)
      requires offset == 0 && nodes == 0
      modifies this
      ensures r == StrictRead(text, admits)
      ensures r.Yes? ==> nodes == Count(r.value)
    {
      hide ParseValue, Denote, SkipGap, Gap;
      assert Rest() == text;
      Space();
      ValueStep(text, admits);
      r := Value(0);
      if r.No? {
        return;
      }
      Space();
      if offset != |text| {
        return No;
      }
    }
  }

  /******* One round of the member and item loops *******/

  function PushItems(acc: seq<Item>, r: Parsed<seq<Item>>): Parsed<seq<Item>> {
    match r
    case Bad => Bad
    case Ok(items, rest, n) => Ok(acc + items, rest, n)
  }

  function PushPairs(acc: seq<Pair>, r: Parsed<seq<Pair>>): Parsed<seq<Pair>> {
    match r
    case Bad => Bad
    case Ok(pairs, rest, n) => Ok(acc + pairs, rest, n)
  }

  lemma PushNoItems(r: Parsed<seq<Item>>)
    ensures PushItems([], r) == r
  {
    if r.Ok? {
      assert [] + r.value == r.value;
    }
  }

  lemma PushNoPairs(r: Parsed<seq<Pair>>)
    ensures PushPairs([], r) == r
  {
    if r.Ok? {
      assert [] + r.value == r.value;
    }
  }

  lemma PushItemsTwice(acc: seq<Item>, item: Item, r: Parsed<seq<Item>>)
    ensures PushItems(acc, PushItem(item, r)) == PushItems(acc + [item], r)
  {
    if r.Ok? {
      assert acc + ([item] + r.value) == (acc + [item]) + r.value;
    }
  }

  lemma PushPairsTwice(acc: seq<Pair>, pair: Pair, r: Parsed<seq<Pair>>)
    ensures PushPairs(acc, PushPair(pair, r)) == PushPairs(acc + [pair], r)
  {
    if r.Ok? {
      assert acc + ([pair] + r.value) == (acc + [pair]) + r.value;
    }
  }

  lemma ItemsStep(gap: Text, s: Text, depth: nat, nodes: nat, cfg: Config)
    ensures var v := ParseValue(s, depth + 1, nodes, cfg);
      ParseItems(gap, s, depth, nodes, cfg) ==
      if v.Bad? then Bad
      else
        var w := SkipGap(v.rest);
        var item := Item(gap, v.value, Gap(v.rest));
        if At(w, CLOSE_ARRAY) then Ok([item], w[1..], v.nodes)
        else if At(w, COMMA) then PushItem(item, ParseItems(Gap(w[1..]), SkipGap(w[1..]), depth, v.nodes, cfg))
        else Bad
  {
    hide ParseValue, SkipGap, Gap;
  }

  lemma ArrayStep(s: Text, depth: nat, nodes: nat, cfg: Config)
    ensures var u := SkipGap(s); var items := ParseItems(Gap(s), u, depth, nodes, cfg);
      ParseArray(s, depth, nodes, cfg) ==
      if At(u, CLOSE_ARRAY) then Ok(EmptyArray(Gap(s)), u[1..], nodes)
      else if items.Bad? then Bad else Ok(Array(items.value), items.rest, items.nodes)
  {
    hide ParseItems, SkipGap, Gap;
  }

  lemma ObjectStep(s: Text, depth: nat, nodes: nat, cfg: Config)
    ensures var u := SkipGap(s); var pairs := ParsePairs(Gap(s), u, depth, nodes, cfg, {});
      ParseObject(s, depth, nodes, cfg) ==
      if At(u, CLOSE_OBJECT) then Ok(EmptyObject(Gap(s)), u[1..], nodes)
      else if pairs.Bad? then Bad else Ok(Object(pairs.value), pairs.rest, pairs.nodes)
  {
    hide ParsePairs, SkipGap, Gap;
  }

  lemma NameStep(gap: Text, s: Text, cfg: Config, seen: set<Text>)
    ensures ParseName(gap, s, cfg, seen) ==
      if !At(s, QUOTE) then Bad
      else
        var key := ParseQuoted(s[1..], cfg);
        if key.Bad? || (cfg.policy.Strict? && Codes(key.value) in seen) then Bad
        else
          var w := SkipGap(key.rest);
          if !At(w, COLON) then Bad
          else Ok(Pair(gap, key.value, Gap(key.rest), Gap(w[1..]), Word(Null), []), SkipGap(w[1..]), 0)
  {
    hide ParseQuoted, SkipGap, Gap, Codes;
  }

  lemma DenoteNothing()
    ensures DenoteItems([], UnitView) == [] && DenotePairs([], UnitView) == []
  {
  }

  lemma DenoteEmpty(gap: Text)
    ensures Denote(EmptyArray(gap), UnitView) == Arr([]) && Denote(EmptyObject(gap), UnitView) == Obj([])
  {
  }

  lemma DenoteArray(items: seq<Item>)
    ensures Denote(Array(items), UnitView) == Arr(DenoteItems(items, UnitView))
  {
  }

  lemma DenoteObject(pairs: seq<Pair>)
    ensures Denote(Object(pairs), UnitView) == Obj(DenotePairs(pairs, UnitView))
  {
  }

  lemma PairsStep(gap: Text, s: Text, depth: nat, nodes: nat, cfg: Config, seen: set<Text>)
    ensures var name := ParseName(gap, s, cfg, seen);
      ParsePairs(gap, s, depth, nodes, cfg, seen) ==
      if name.Bad? then Bad
      else
        var v := ParseValue(name.rest, depth + 1, nodes, cfg);
        if v.Bad? then Bad
        else
          var w := SkipGap(v.rest);
          var pair := name.value.(value := v.value, after := Gap(v.rest));
          if At(w, CLOSE_OBJECT) then Ok([pair], w[1..], v.nodes)
          else if At(w, COMMA) then
            PushPair(pair, ParsePairs(Gap(w[1..]), SkipGap(w[1..]), depth, v.nodes, cfg, seen + {Codes(pair.key)}))
          else Bad
  {
    hide ParseValue, ParseName, SkipGap, Gap, Codes;
  }

  lemma {:induction false} DenoteItemsPush(acc: seq<Item>, item: Item, view: View)
    ensures DenoteItems(acc + [item], view) == DenoteItems(acc, view) + [Denote(item.value, view)]
  {
    if acc == [] {
      assert acc + [item] == [item];
      assert DenoteItems([item][1..], view) == [];
    } else {
      assert (acc + [item])[1..] == acc[1..] + [item];
      DenoteItemsPush(acc[1..], item, view);
    }
  }

  lemma {:induction false} DenotePairsPush(acc: seq<Pair>, pair: Pair, view: View)
    ensures DenotePairs(acc + [pair], view) ==
            DenotePairs(acc, view) + [Member(StringOf(pair.key, view), Denote(pair.value, view))]
  {
    if acc == [] {
      assert acc + [pair] == [pair];
      assert DenotePairs([pair][1..], view) == [];
    } else {
      assert (acc + [pair])[1..] == acc[1..] + [pair];
      DenotePairsPush(acc[1..], pair, view);
    }
  }

  // A text that starts with no sign and no digit is no number, and the names start with different letters.
  lemma WordStart(s: Text)
    requires s != []
    ensures s[0] != MINUS && !Digit(s[0]) ==> ParseNumber(s).Bad?
    ensures s[0] != 0x74 ==> !Starts(s, TRUE)
    ensures s[0] != 0x66 ==> !Starts(s, FALSE)
    ensures s[0] != 0x6E ==> !Starts(s, NULL)
  {
    assert TRUE[0] == 0x74 && FALSE[0] == 0x66 && NULL[0] == 0x6E;
  }

  // A document that is read has as many nodes as were counted.
  lemma ValueStep(text: Text, admits: Number -> bool)
    ensures var v := ParseValue(SkipGap(text), 0, 0, StrictConfig(admits));
      v.Ok? ==> v.nodes == Count(Denote(v.value, UnitView))
  {
    var v := ParseValue(SkipGap(text), 0, 0, StrictConfig(admits));
    if v.Ok? {
      ValueSound(SkipGap(text), 0, 0, StrictConfig(admits));
      DenoteSize(v.value, UnitView);
    }
  }

  /******* Small facts about elements *******/

  lemma PushNothing(r: Parsed<seq<Elem>>)
    ensures PushElems([], r) == r && Codes([]) == []
  {
    if r.Ok? {
      assert [] + r.value == r.value;
    }
  }

  lemma QuotedEnd(s: Text, cfg: Config)
    requires At(s, QUOTE)
    ensures ParseQuoted(s, cfg) == Ok([], s[1..], 0)
  {
  }

  lemma QuotedOpen(cfg: Config)
    ensures ParseQuoted([], cfg).Bad?
  {
  }

  lemma EscapeElem(s: Text)
    requires At(s, BACKSLASH)
    ensures |s| == 1 ==> ParseElem(s).Bad?
    ensures |s| > 1 && ShortMark(s[1]) ==> ParseElem(s) == Ok(Short(s[1]), s[2..], 0)
    ensures |s| > 1 && s[1] != 0x75 && !ShortMark(s[1]) ==> ParseElem(s).Bad?
  {
  }

  lemma HexElem(s: Text)
    ensures Starts(s, [BACKSLASH, 0x75]) ==>
      var u := s[2..];
      var ok := |u| >= 4 && HexDigit(u[0]) && HexDigit(u[1]) && HexDigit(u[2]) && HexDigit(u[3]);
      ParseElem(s) == if ok then Ok(Hex(u[0], u[1], u[2], u[3]), u[4..], 0) else Bad
    ensures !Starts(s, [BACKSLASH, 0x75]) && ParseElem(s).Ok? ==> !ParseElem(s).value.Hex?
  {
    if Starts(s, [BACKSLASH, 0x75]) {
      assert s[0] == s[..2][0] && s[1] == s[..2][1];
      if |s| >= 6 {
        assert s[2..][4..] == s[6..];
      }
    }
  }

  lemma RawElem(s: Text)
    requires s != [] && s[0] != BACKSLASH
    ensures ParseElem(s) == if s[0] < 0x20 then Bad else Ok(Raw(s[0]), s[1..], 0)
    ensures Code(Raw(s[0])) == s[0]
  {
  }

  // What follows a literal high surrogate is its other half only if it is the literal low one.
  lemma RawLow(s: Text)
    ensures s == [] ==> ParseElem(s).Bad?
    ensures s != [] && Low(s[0]) ==> ParseElem(s) == Ok(Raw(s[0]), s[1..], 0) && Code(Raw(s[0])) == s[0]
    ensures s != [] && !Low(s[0]) && ParseElem(s).Ok? && !ParseElem(s).value.Hex? ==> !Low(Code(ParseElem(s).value))
  {
  }

  lemma ShortCodes(mark: int)
    requires ShortMark(mark)
    ensures Codes([Short(mark)]) == [ShortCode(mark)] && Code(Short(mark)) == ShortCode(mark)
    ensures !Surrogate(ShortCode(mark))
  {
    OneCode(Short(mark));
  }

  lemma OneCode(e: Elem)
    ensures Codes([e]) == [Code(e)]
  {
    assert Codes([e][1..]) == [];
  }

  lemma TwoCodes(e: Elem, f: Elem)
    ensures Codes([e, f]) == [Code(e), Code(f)]
  {
    assert [e, f][1..] == [f];
    OneCode(f);
  }

  lemma RawCodes(step: seq<Elem>)
    requires 1 <= |step| <= 2 && forall i :: 0 <= i < |step| ==> step[i].Raw?
    ensures |Codes(step)| == |step| && forall i :: 0 <= i < |step| ==> Codes(step)[i] == step[i].c
  {
    if |step| == 1 {
      assert step == [step[0]];
      OneCode(step[0]);
    } else {
      assert step == [step[0], step[1]];
      TwoCodes(step[0], step[1]);
    }
  }
}
