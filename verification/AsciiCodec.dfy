/**
 json.dumps(value, sort_keys=True, allow_nan=False) and json.loads as the recovery log uses them.

 The dump is ASCII: a code point outside the basic plane is written as two escapes, and so is a string
 that holds the two surrogates themselves.  Loading joins the escapes, so the two strings read back as
 one: `Join` is exactly what a round trip does to a string.
 */
module AsciiCodec {
  import opened Unicode
  import opened JsonSyntax
  import opened JsonReading
  import opened JsonPrinting

  // Python strings: code points, lone surrogates included.
  ghost predicate PyText(s: Text) { forall i :: 0 <= i < |s| ==> 0 <= s[i] <= 0x10FFFF }

  function HexOf(c: int): Elem {
    Hex(HexLetter(c / 0x1000 % 16), HexLetter(c / 0x100 % 16), HexLetter(c / 16 % 16), HexLetter(c % 16))
  }

  function AsciiElem(c: int): seq<Elem> {
    if c == QUOTE || c == BACKSLASH then [Short(c)]
    else if c == 0x08 then [Short(0x62)]
    else if c == 0x09 then [Short(0x74)]
    else if c == 0x0A then [Short(0x6E)]
    else if c == 0x0C then [Short(0x66)]
    else if c == 0x0D then [Short(0x72)]
    else if 0x20 <= c <= 0x7E then [Raw(c)]
    else if c < 0x10000 then [HexOf(c)]
    else [HexOf(0xD800 + (c - 0x10000) / 0x400), HexOf(0xDC00 + (c - 0x10000) % 0x400)]
  }

  function AsciiElems(s: Text): seq<Elem> {
    if s == [] then [] else AsciiElem(s[0]) + AsciiElems(s[1..])
  }

  /******* What a round trip does to a string *******/

  function Join(s: Text): Text {
    if s == [] then []
    else if |s| > 1 && High(s[0]) && Low(s[1]) then [Combine(s[0], s[1])] + Join(s[2..])
    else [s[0]] + Join(s[1..])
  }

  // No surrogate is followed by its other half.
  ghost predicate Joined(s: Text) { forall i :: 0 <= i < |s| - 1 ==> !(High(s[i]) && Low(s[i + 1])) }

  lemma {:induction false} JoinedIsFixed(s: Text)
    ensures Join(s) == s <==> Joined(s)
    ensures |Join(s)| <= |s| && (s != [] ==> Join(s) != [])
    ensures !Joined(s) ==> |Join(s)| < |s|
    decreases |s|
  {
    if s == [] {
    } else if |s| > 1 && High(s[0]) && Low(s[1]) {
      JoinedIsFixed(s[2..]);
    } else {
      JoinedIsFixed(s[1..]);
      assert s == [s[0]] + s[1..];
      if Joined(s[1..]) {
        forall i | 0 <= i < |s| - 1 ensures !(High(s[i]) && Low(s[i + 1])) {
          if i > 0 {
            assert s[1..][i - 1] == s[i] && s[1..][i] == s[i + 1];
          }
        }
      } else {
        var i :| 0 <= i < |s[1..]| - 1 && High(s[1..][i]) && Low(s[1..][i + 1]);
        assert High(s[i + 1]) && Low(s[i + 2]);
      }
    }
  }

  lemma {:induction false} JoinJoins(s: Text)
    requires PyText(s)
    ensures Joined(Join(s)) && PyText(Join(s))
    ensures s != [] ==> Join(s) != [] && (Low(Join(s)[0]) ==> Low(s[0]))
    decreases |s|
  {
    if s == [] {
    } else if |s| > 1 && High(s[0]) && Low(s[1]) {
      JoinJoins(s[2..]);
      ConsJoined(Combine(s[0], s[1]), Join(s[2..]));
    } else {
      JoinJoins(s[1..]);
      ConsJoined(s[0], Join(s[1..]));
    }
  }

  lemma ConsJoined(c: int, s: Text)
    requires Joined(s) && (s != [] ==> !(High(c) && Low(s[0])))
    ensures Joined([c] + s)
  {
    var t := [c] + s;
    forall i | 0 <= i < |t| - 1 ensures !(High(t[i]) && Low(t[i + 1])) {
      if i > 0 {
        assert t[i] == s[i - 1] && t[i + 1] == s[i];
      }
    }
  }

  lemma HexOfExact(c: int)
    requires 0 <= c <= 0xFFFF
    ensures WfElem(HexOf(c)) && Code(HexOf(c)) == c && HexOf(c).Hex?
  {
    LetterExact(c / 0x1000 % 16);
    LetterExact(c / 0x100 % 16);
    LetterExact(c / 16 % 16);
    LetterExact(c % 16);
    Nibbles(c);
  }

  lemma LetterExact(d: int)
    requires 0 <= d < 16
    ensures HexDigit(HexLetter(d)) && HexValue(HexLetter(d)) == d
  {
  }

  lemma Nibbles(c: int)
    requires 0 <= c <= 0xFFFF
    ensures c == ((c / 0x1000 % 16 * 16 + c / 0x100 % 16) * 16 + c / 16 % 16) * 16 + c % 16
  {
    var b, a := c / 16, c / 0x100;
    assert c == b * 16 + c % 16;
    assert a == b / 16 && b == a * 16 + b % 16;
    assert c / 0x1000 == a / 16 && a == a / 16 * 16 + a % 16;
  }

  // The elements of a narrow code point are one element that stands for it.
  lemma NarrowElem(c: int)
    requires 0 <= c < 0x10000
    ensures |AsciiElem(c)| == 1 && WfElem(AsciiElem(c)[0]) && Code(AsciiElem(c)[0]) == c
    ensures Surrogate(c) ==> AsciiElem(c)[0].Hex?
  {
    hide Code, HexOf, WfElem;
    HexOfExact(c);
    if 0x20 <= c <= 0x7E && c != QUOTE && c != BACKSLASH {
      RawExact(c);
    } else if c == QUOTE || c == BACKSLASH || c == 0x08 || c == 0x09 || c == 0x0A || c == 0x0C || c == 0x0D {
      ShortExact(c);
    }
  }

  lemma RawExact(c: int)
    requires 0x20 <= c && c != QUOTE && c != BACKSLASH
    ensures WfElem(Raw(c)) && Code(Raw(c)) == c
  {
  }

  lemma ShortExact(c: int)
    requires c == QUOTE || c == BACKSLASH || c == 0x08 || c == 0x09 || c == 0x0A || c == 0x0C || c == 0x0D
    ensures var es := AsciiElem(c); |es| == 1 && es[0].Short? && WfElem(es[0]) && Code(es[0]) == c
  {
  }

  lemma WideElem(c: int)
    requires 0x10000 <= c <= 0x10FFFF
    ensures var es := AsciiElem(c);
      && |es| == 2 && WfElem(es[0]) && WfElem(es[1]) && es[0].Hex? && es[1].Hex?
      && High(Code(es[0])) && Low(Code(es[1])) && Combine(Code(es[0]), Code(es[1])) == c
      && es[0] == HexOf(Code(es[0])) && es[1] == HexOf(Code(es[1]))
  {
    hide HexOf, Code, WfElem;
    WideSplit(c);
    HexOfExact(0xD800 + (c - 0x10000) / 0x400);
    HexOfExact(0xDC00 + (c - 0x10000) % 0x400);
  }

  lemma WideSplit(c: int)
    requires 0x10000 <= c <= 0x10FFFF
    ensures var high, low := 0xD800 + (c - 0x10000) / 0x400, 0xDC00 + (c - 0x10000) % 0x400;
      High(high) && Low(low) && Combine(high, low) == c
  {
  }

  // The first element of an encoding shows whether the string starts with a low surrogate.
  lemma FirstElem(s: Text)
    requires PyText(s) && s != []
    ensures AsciiElems(s) != []
    ensures Low(Code(AsciiElems(s)[0])) && AsciiElems(s)[0].Hex? <==> Low(s[0])
  {
    if s[0] < 0x10000 {
      NarrowElem(s[0]);
    } else {
      WideElem(s[0]);
    }
    assert AsciiElems(s)[0] == AsciiElem(s[0])[0];
  }

  lemma {:induction false} AsciiWf(s: Text)
    requires PyText(s)
    ensures WfElems(AsciiElems(s))
  {
    if s != [] {
      AsciiWf(s[1..]);
      if s[0] < 0x10000 { NarrowElem(s[0]); } else { WideElem(s[0]); }
      assert forall i :: 0 <= i < |AsciiElem(s[0])| ==> WfElem(AsciiElem(s[0])[i]);
    }
  }

  // A dumped string reads back joined.
  lemma {:induction false} AsciiPoints(s: Text)
    requires PyText(s)
    ensures Points(AsciiElems(s)) == Join(s)
    decreases |s|
  {
    hide Code, AsciiElem, HexOf;
    if s == [] {
    } else if s[0] >= 0x10000 {
      AsciiPoints(s[1..]);
      WideElem(s[0]);
      var es := AsciiElem(s[0]);
      assert AsciiElems(s) == [es[0], es[1]] + AsciiElems(s[1..]);
      assert AsciiElems(s)[2..] == AsciiElems(s[1..]);
    } else {
      NarrowElem(s[0]);
      var es, rest := AsciiElems(s), AsciiElems(s[1..]);
      assert es == [AsciiElem(s[0])[0]] + rest && es[1..] == rest;
      if s[1..] != [] {
        FirstElem(s[1..]);
      }
      if |s| > 1 && High(s[0]) && Low(s[1]) {
        NarrowElem(s[1]);
        assert s[1..][0] == s[1] && s[1..][1..] == s[2..];
        assert rest == [AsciiElem(s[1])[0]] + AsciiElems(s[2..]);
        assert es[2..] == AsciiElems(s[2..]);
        AsciiPoints(s[2..]);
      } else {
        AsciiPoints(s[1..]);
        assert |s| > 1 ==> es[1] == rest[0] && s[1..][0] == s[1];
        assert !JoinsNext(es);
      }
    }
  }

  // Joining changes nothing in the dump.
  lemma {:induction false} AsciiJoin(s: Text)
    requires PyText(s)
    ensures AsciiElems(Join(s)) == AsciiElems(s)
    decreases |s|
  {
    hide AsciiElem, HexOf;
    if s == [] {
    } else if |s| > 1 && High(s[0]) && Low(s[1]) {
      AsciiJoin(s[2..]);
      var c := Combine(s[0], s[1]);
      PairElems(s[0], s[1]);
      assert Join(s)[1..] == Join(s[2..]);
      assert s[1..][0] == s[1] && s[1..][1..] == s[2..];
      assert AsciiElems(s) == AsciiElem(s[0]) + (AsciiElem(s[1]) + AsciiElems(s[2..]));
    } else {
      AsciiJoin(s[1..]);
      assert Join(s)[1..] == Join(s[1..]);
    }
  }

  lemma PairElems(high: int, low: int)
    requires High(high) && Low(low)
    ensures AsciiElem(Combine(high, low)) == AsciiElem(high) + AsciiElem(low)
  {
    var c := Combine(high, low);
    assert (c - 0x10000) / 0x400 == high - 0xD800 && (c - 0x10000) % 0x400 == low - 0xDC00;
  }
}
