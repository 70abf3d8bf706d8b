/**
 What the marks of a JSON text mean to the two readers, stated on their answers and in character codes: escapes and
 literal codes (section 7 of RFC 8259), white space and punctuation (section 2), the literal names (section 3) and
 numbers (section 6).
 */
module JsonLexicon {
  import opened Basics
  import opened Unicode
  import opened JsonValues
  import opened JsonSyntax
  import opened JsonGrammar
  import opened JsonReading
  import opened TwoPass
  import opened TwoPassAgreement

  // The reader of strict-json.ts, which answers in UTF-16 units, and the one of validation.py, in code points.
  datatype Reader = OnePass(admits: Number -> bool) | TwoPasses(decodes: Number -> bool, safe: Number -> bool)

  ghost function Read(reader: Reader, text: Text): Outcome<Json> {
    match reader
    case OnePass(admits) => StrictRead(text, admits)
    case TwoPasses(decodes, safe) => DecodeText(text, decodes, safe)
  }

  function InQuotes(a: Text): Text { [0x22] + (a + [0x22]) }

  // The text between two quotes is read as the string x.
  ghost predicate IsString(reader: Reader, a: Text, x: Text) { Read(reader, InQuotes(a)) == Yes(Str(x)) }

  /******* A document that is one string *******/

  function ViewOf(reader: Reader): View { if reader.OnePass? then UnitView else PointView }

  // What the reader demands of the elements of a string.
  ghost predicate Sound(reader: Reader, elems: seq<Elem>) {
    match reader
    case OnePass(_) => Paired(elems)
    case TwoPasses(_, _) => NoSurrogate(Points(elems))
  }

  ghost predicate Whole(reader: Reader, r: Parsed<seq<Elem>>) {
    r.Ok? && SkipGap(r.rest) == [] && Sound(reader, r.value)
  }

  lemma StringDocument(s: Text)
    ensures ParseDocument([QUOTE] + s, SCAN_CONFIG) == match ParseElems(s)
      case Bad => Bad
      case Ok(elems, u, _) => if SkipGap(u) == [] then Ok(Item([], Quoted(elems), Gap(u)), [], 1) else Bad
  {
    hide ParseElems;
    assert ([QUOTE] + s)[0] == QUOTE && ([QUOTE] + s)[1..] == s;
  }

  lemma ReadString(reader: Reader, s: Text)
    ensures var r := ParseElems(s);
      Read(reader, [QUOTE] + s) == if Whole(reader, r) then Yes(Str(StringOf(r.value, ViewOf(reader)))) else No
  {
    hide ParseElems, ParseDocument, Paired, Codes, Points, NoSurrogate;
    StringDocument(s);
    var text := [QUOTE] + s;
    match reader {
      case OnePass(admits) => StrictDocument(text, admits);
      case TwoPasses(decodes, safe) =>
        if ParseDocument(text, SCAN_CONFIG).Ok? {
          ScannedValue(text, decodes, safe);
        }
    }
  }

  /******* The elements of a string *******/

  // Elements without the closing quote.
  function SpellPart(elems: seq<Elem>, rest: Text): Text {
    if elems == [] then rest else SpellElem(elems[0], SpellPart(elems[1..], rest))
  }

  lemma {:induction false} PartQuoted(elems: seq<Elem>, rest: Text)
    ensures SpellElems(elems, rest) == SpellPart(elems, [QUOTE] + rest)
  {
    if elems != [] {
      PartQuoted(elems[1..], rest);
    }
  }

  lemma {:induction false} PartAppend(elems: seq<Elem>, rest: Text)
    ensures SpellPart(elems, rest) == SpellPart(elems, []) + rest
  {
    if elems == [] {
      assert [] + rest == rest;
    } else {
      PartAppend(elems[1..], rest);
    }
  }

  lemma {:induction false} PartParses(elems: seq<Elem>, s: Text)
    requires WfElems(elems)
    ensures ParseElems(SpellPart(elems, s)) == match ParseElems(s)
      case Bad => Bad
      case Ok(more, u, n) => Ok(elems + more, u, n)
  {
    var r := ParseElems(s);
    if elems == [] {
      assert r.Ok? ==> [] + r.value == r.value;
    } else {
      hide SpellElem, ParseElem;
      PartParses(elems[1..], s);
      ElemComplete(elems[0], SpellPart(elems[1..], s));
      assert r.Ok? ==> [elems[0]] + (elems[1..] + r.value) == elems + r.value;
    }
  }

  lemma BlankEnd(s: Text)
    requires SkipGap(s) == [] && s != []
    ensures Blank(s[|s| - 1])
  {
    hide SkipGap, Gap;
    GapSound(s);
    assert Gap(s) + [] == Gap(s);
  }

  lemma EndsInQuote(a: Text, part: Text, u: Text)
    requires a + [QUOTE] == part + ([QUOTE] + u) && SkipGap(u) == []
    ensures u == [] && a == part
  {
    hide SkipGap;
    var all := part + ([QUOTE] + u);
    assert all[|all| - 1] == QUOTE && (u != [] ==> all[|all| - 1] == u[|u| - 1]);
    if u != [] {
      BlankEnd(u);
    }
    assert (a + [QUOTE])[..|a|] == a && (part + [QUOTE])[..|part|] == part;
  }

  // A text that is read as a string spells elements that stand for the string.
  lemma Around(reader: Reader, a: Text, x: Text) returns (elems: seq<Elem>)
    requires IsString(reader, a, x)
    ensures WfElems(elems) && a == SpellPart(elems, []) && Sound(reader, elems) && x == StringOf(elems, ViewOf(reader))
  {
    hide ParseElems, SpellElems, SpellPart, Sound, StringOf, SkipGap;
    ReadString(reader, a + [QUOTE]);
    var r := ParseElems(a + [QUOTE]);
    elems := r.value;
    ElemsSound(a + [QUOTE]);
    PartQuoted(elems, r.rest);
    PartAppend(elems, [QUOTE] + r.rest);
    EndsInQuote(a, SpellPart(elems, []), r.rest);
  }

  lemma PairedHead(elems: seq<Elem>)
    requires elems != [] && Paired(elems)
    ensures High(Code(elems[0])) ==> |elems| > 1 && Low(Code(elems[1])) && elems[0].Hex? == elems[1].Hex?
  {
    hide Code;
  }

  // How many elements the first code of a paired string takes.
  function PairLength(elems: seq<Elem>): nat
    requires elems != []
  {
    if High(Code(elems[0])) then 2 else 1
  }

  lemma PairedFront(elems: seq<Elem>, more: seq<Elem>)
    requires elems != [] && Paired(elems)
    ensures var n := PairLength(elems);
      && n <= |elems| && Paired(elems[n..]) && Codes(elems) == Codes(elems[..n]) + Codes(elems[n..])
      && Paired(elems + more) == Paired(elems[n..] + more)
      && Codes(elems + more) == Codes(elems[..n]) + Codes(elems[n..] + more)
  {
    PairedHead(elems);
    var n := PairLength(elems);
    var head, rest := elems[..n], elems[n..];
    hide Code, Paired, Codes;
    assert elems == head + rest && elems + more == head + (rest + more) && head == head + [];
    if n == 2 {
      assert head == [elems[0], elems[1]];
      PairedPair(elems[0], elems[1], rest);
      PairedPair(elems[0], elems[1], rest + more);
      PairedPair(elems[0], elems[1], []);
    } else {
      assert head == [elems[0]];
      PairedOne(elems[0], rest);
      PairedOne(elems[0], rest + more);
      PairedOne(elems[0], []);
    }
    NoCodes([Code(elems[0])]);
    if n == 2 {
      NoCodes([Code(elems[0]), Code(elems[1])]);
    }
  }

  lemma NoCodes(s: Text)
    ensures s + Codes([]) == s
  {
  }

  lemma {:induction false} PairedAppend(elems: seq<Elem>, more: seq<Elem>)
    requires Paired(elems)
    ensures Paired(elems + more) == Paired(more) && Codes(elems + more) == Codes(elems) + Codes(more)
    decreases |elems|
  {
    if elems == [] {
      assert [] + more == more && [] + Codes(more) == Codes(more);
    } else {
      hide Paired, Codes;
      PairedFront(elems, more);
      var n := PairLength(elems);
      PairedAppend(elems[n..], more);
      assert Codes(elems[..n]) + (Codes(elems[n..]) + Codes(more)) == (Codes(elems[..n]) + Codes(elems[n..])) + Codes(more);
    }
  }

  // The first point of a string, and how many elements it takes.
  function Taken(elems: seq<Elem>): nat
    requires elems != []
  {
    if JoinsNext(elems) then 2 else 1
  }

  function FirstPoint(elems: seq<Elem>): int
    requires elems != []
  {
    if JoinsNext(elems) then Combine(Code(elems[0]), Code(elems[1])) else Code(elems[0])
  }

  lemma PointsHead(elems: seq<Elem>)
    requires elems != []
    ensures Taken(elems) <= |elems| && Points(elems) == [FirstPoint(elems)] + Points(elems[Taken(elems)..])
    ensures NoSurrogate(Points(elems)) ==> !Surrogate(FirstPoint(elems)) && NoSurrogate(Points(elems[Taken(elems)..]))
  {
    hide Code, Combine;
    PointsStep(elems);
    hide Points;
    var head, rest := FirstPoint(elems), Points(elems[Taken(elems)..]);
    if NoSurrogate(Points(elems)) {
      assert Points(elems)[0] == head;
      NoSurrogateAppend([head], rest);
    }
  }

  lemma SameHead(elems: seq<Elem>, more: seq<Elem>)
    requires elems != [] && !Surrogate(FirstPoint(elems))
    ensures Taken(elems + more) == Taken(elems) <= |elems| && FirstPoint(elems + more) == FirstPoint(elems)
    ensures (elems + more)[Taken(elems)..] == elems[Taken(elems)..] + more
  {
    hide Code, Combine;
    assert (elems + more)[0] == elems[0] && (|elems| > 1 ==> (elems + more)[1] == elems[1]);
  }

  // A string that leaves no surrogate keeps its points, whatever follows it.
  lemma {:induction false} PointsAppend(elems: seq<Elem>, more: seq<Elem>)
    requires NoSurrogate(Points(elems))
    ensures Points(elems + more) == Points(elems) + Points(more)
    decreases |elems|
  {
    if elems == [] {
      assert [] + more == more && [] + Points(more) == Points(more);
    } else {
      hide Points, NoSurrogate, FirstPoint;
      PointsHead(elems);
      PointsHead(elems + more);
      SameHead(elems, more);
      var head, rest := FirstPoint(elems), elems[Taken(elems)..];
      PointsAppend(rest, more);
      assert [head] + (Points(rest) + Points(more)) == ([head] + Points(rest)) + Points(more);
    }
  }

  lemma NoSurrogateAppend(s: Text, t: Text)
    requires NoSurrogate(s)
    ensures NoSurrogate(s + t) <==> NoSurrogate(t)
  {
    if NoSurrogate(s + t) {
      forall i | 0 <= i < |t| ensures !Surrogate(t[i]) {
        assert t[i] == (s + t)[|s| + i];
      }
    }
  }

  lemma SoundAppend(reader: Reader, elems: seq<Elem>, more: seq<Elem>)
    requires Sound(reader, elems)
    ensures Sound(reader, elems + more) == Sound(reader, more)
    ensures var view := ViewOf(reader); StringOf(elems + more, view) == StringOf(elems, view) + StringOf(more, view)
  {
    hide Paired, Codes, Points, NoSurrogate;
    if reader.OnePass? {
      PairedAppend(elems, more);
    } else {
      PointsAppend(elems, more);
      NoSurrogateAppend(Points(elems), Points(more));
    }
  }

  // One element in front of a sound string.
  lemma SoundCons(reader: Reader, e: Elem, elems: seq<Elem>)
    requires Sound(reader, elems)
    ensures Sound(reader, [e] + elems) <==> !Surrogate(Code(e))
    ensures !Surrogate(Code(e)) ==> StringOf([e] + elems, ViewOf(reader)) == [Code(e)] + StringOf(elems, ViewOf(reader))
  {
    hide Code;
    var all := [e] + elems;
    assert all[1..] == elems && all[0] == e;
    if reader.OnePass? {
      if elems != [] {
        assert all[1] == elems[0] && !Low(Code(elems[0]));
      }
    } else {
      if JoinsNext(all) {
        assert all[1] == elems[0] && !JoinsNext(elems);
        assert Points(elems)[0] == Code(elems[0]);
        assert false;
      }
      assert Points(all) == [Code(e)] + Points(elems);
      assert Points(all)[0] == Code(e);
      if !Surrogate(Code(e)) {
        NoSurrogateAppend([Code(e)], Points(elems));
      }
    }
  }

  // A piece of text between two strings that spells one element, or none.
  lemma Inserted(reader: Reader, a: Text, b: Text, x: Text, y: Text, t: Text, e: Option<Elem>)
    requires IsString(reader, a, x) && IsString(reader, b, y) && !At(t + (b + [QUOTE]), QUOTE)
    requires ParseElem(t + (b + [QUOTE])) == if e.Some? then Ok(e.value, b + [QUOTE], 0) else Bad
    ensures Read(reader, InQuotes(a + t + b)) ==
      if e.Some? && !Surrogate(Code(e.value)) then Yes(Str(x + [Code(e.value)] + y)) else No
  {
    hide Read, ParseElem, SpellPart, Sound, StringOf, Code;
    var p := Around(reader, a, x);
    var q := Around(reader, b, y);
    var tail := t + (b + [QUOTE]);
    PartAppend(p, tail);
    PartParses(p, tail);
    assert a + t + b + [QUOTE] == a + tail;
    ReadString(reader, a + tail);
    if e.Some? {
      PartAppend(q, [QUOTE]);
      PartParses(q, [QUOTE]);
      assert ParseElems([QUOTE]) == Ok([], [], 0) && q + [] == q;
      SoundCons(reader, e.value, q);
      SoundAppend(reader, p, [e.value] + q);
      assert x + ([Code(e.value)] + y) == x + [Code(e.value)] + y;
    }
  }

  /******* Escapes and literal codes *******/

  // What the character after a backslash stands for.
  function Escaped(mark: int): Option<int> {
    if mark == '"' as int then Some('"' as int)
    else if mark == '\\' as int then Some('\\' as int)
    else if mark == '/' as int then Some('/' as int)
    else if mark == 'b' as int then Some(0x08)
    else if mark == 'f' as int then Some(0x0C)
    else if mark == 'n' as int then Some(0x0A)
    else if mark == 'r' as int then Some(0x0D)
    else if mark == 't' as int then Some(0x09)
    else None
  }

  // Within any string, backslash and mark stand for the one character that the standard names; a string with any
  // other mark is refused.
  lemma EscapeMeans(reader: Reader, a: Text, b: Text, x: Text, y: Text, mark: int)
    requires IsString(reader, a, x) && IsString(reader, b, y) && mark != 'u' as int
    ensures Read(reader, InQuotes(a + ['\\' as int, mark] + b)) ==
      if Escaped(mark).Some? then Yes(Str(x + [Escaped(mark).value] + y)) else No
  {
    hide Read;
    var t, tail := [BACKSLASH, mark], b + [QUOTE];
    assert (t + tail)[0] == BACKSLASH && (t + tail)[1] == mark && (t + tail)[2..] == tail;
    Inserted(reader, a, b, x, y, t, if Escaped(mark).Some? then Some(Short(mark)) else None);
  }

  // A hexadecimal digit, in either case, and what it counts.
  predicate Hexadecimal(c: int, v: int) {
    || (0 <= v <= 9 && c == '0' as int + v)
    || (10 <= v <= 15 && (c == 'a' as int + v - 10 || c == 'A' as int + v - 10))
  }

  lemma HexCounts(c: int, v: int)
    ensures Hexadecimal(c, v) ==> HexDigit(c) && HexValue(c) == v
    ensures HexDigit(c) ==> Hexadecimal(c, HexValue(c))
  {
  }

  // Four digits that spell n.
  predicate Spelled(d: seq<int>, v: seq<int>, n: int) {
    && |d| == |v| == 4 && Hexadecimal(d[0], v[0]) && Hexadecimal(d[1], v[1]) && Hexadecimal(d[2], v[2]) && Hexadecimal(d[3], v[3])
    && n == 0x1000 * v[0] + 0x100 * v[1] + 0x10 * v[2] + v[3]
  }

  lemma SpelledElem(d: seq<int>, v: seq<int>, n: int, tail: Text)
    requires Spelled(d, v, n)
    ensures var e := Hex(d[0], d[1], d[2], d[3]);
      && Code(e) == n && WfElem(e)
      && ParseElem([BACKSLASH, 0x75] + d + tail) == Ok(e, tail, 0) && !At([BACKSLASH, 0x75] + d + tail, QUOTE)
  {
    HexCounts(d[0], v[0]);
    HexCounts(d[1], v[1]);
    HexCounts(d[2], v[2]);
    HexCounts(d[3], v[3]);
    var s := [BACKSLASH, 0x75] + d + tail;
    assert s[2..][..4] == d && s[6..] == tail;
    assert s[2] == d[0] && s[3] == d[1] && s[4] == d[2] && s[5] == d[3];
  }

  // Within any string, backslash, u and four digits stand for the code that the digits spell, unless it is one half of
  // a surrogate pair: then the string is refused.
  lemma HexMeans(reader: Reader, a: Text, b: Text, x: Text, y: Text, d: seq<int>, v: seq<int>, n: int)
    requires IsString(reader, a, x) && IsString(reader, b, y) && Spelled(d, v, n)
    ensures Read(reader, InQuotes(a + (['\\' as int, 'u' as int] + d) + b)) ==
      if 0xD800 <= n <= 0xDFFF then No else Yes(Str(x + [n] + y))
  {
    hide Read, ParseElem, Hexadecimal, Code;
    var t, e := [BACKSLASH, 0x75] + d, Hex(d[0], d[1], d[2], d[3]);
    SpelledElem(d, v, n, b + [QUOTE]);
    assert t + (b + [QUOTE]) == [BACKSLASH, 0x75] + d + (b + [QUOTE]);
    Inserted(reader, a, b, x, y, t, Some(e));
  }

  // Backslash and u before anything but four hexadecimal digits are refused.
  lemma HexNeedsDigits(reader: Reader, a: Text, b: Text, x: Text, y: Text, d: seq<int>, i: nat)
    requires IsString(reader, a, x) && IsString(reader, b, y) && i < |d| == 4 && forall v :: !Hexadecimal(d[i], v)
    ensures Read(reader, InQuotes(a + (['\\' as int, 'u' as int] + d) + b)) == No
  {
    hide Read;
    HexCounts(d[i], HexValue(d[i]));
    var t, tail := [BACKSLASH, 0x75] + d, b + [QUOTE];
    assert (t + tail)[0] == BACKSLASH && (t + tail)[1] == 0x75 && (t + tail)[2 + i] == d[i];
    Inserted(reader, a, b, x, y, t, None);
  }

  // Two escapes that spell a surrogate pair stand for one character: two units, or one code point.
  lemma PairMeans(reader: Reader, a: Text, b: Text, x: Text, y: Text,
                  d: seq<int>, v: seq<int>, high: int, e: seq<int>, w: seq<int>, low: int)
    requires IsString(reader, a, x) && IsString(reader, b, y)
    requires Spelled(d, v, high) && Spelled(e, w, low) && 0xD800 <= high <= 0xDBFF && 0xDC00 <= low <= 0xDFFF
    ensures var escapes := ['\\' as int, 'u' as int] + d + (['\\' as int, 'u' as int] + e);
      Read(reader, InQuotes(a + escapes + b)) ==
        Yes(Str(x + (if reader.OnePass? then [high, low] else [0x10000 + (high - 0xD800) * 0x400 + (low - 0xDC00)]) + y))
  {
    hide Read, ParseElem, Hexadecimal, Code, SpellPart, Sound, StringOf;
    var f, g := Hex(d[0], d[1], d[2], d[3]), Hex(e[0], e[1], e[2], e[3]);
    var p := Around(reader, a, x);
    var q := Around(reader, b, y);
    var first, second, tail := [BACKSLASH, 0x75] + d, [BACKSLASH, 0x75] + e, b + [QUOTE];
    SpelledElem(e, w, low, tail);
    SpelledElem(d, v, high, second + tail);
    PartAppend(q, [QUOTE]);
    PartParses(q, [QUOTE]);
    assert ParseElems([QUOTE]) == Ok([], [], 0) && q + [] == q;
    assert ParseElems(second + tail) == Ok([g] + q, [], 0);
    assert ParseElems(first + (second + tail)) == Ok([f] + ([g] + q), [], 0);
    PartAppend(p, first + (second + tail));
    PartParses(p, first + (second + tail));
    assert a + (first + second) + b + [QUOTE] == a + (first + (second + tail));
    ReadString(reader, a + (first + (second + tail)));
    assert [f] + ([g] + q) == [f, g] + q;
    PairCons(reader, f, g, q);
    SoundAppend(reader, p, [f, g] + q);
    var mid := if reader.OnePass? then [high, low] else [Combine(high, low)];
    assert x + (mid + y) == x + mid + y;
  }

  lemma PairCons(reader: Reader, f: Elem, g: Elem, elems: seq<Elem>)
    requires Sound(reader, elems) && f.Hex? && g.Hex? && High(Code(f)) && Low(Code(g))
    ensures Sound(reader, [f, g] + elems)
    ensures StringOf([f, g] + elems, ViewOf(reader)) ==
      (if reader.OnePass? then [Code(f), Code(g)] else [Combine(Code(f), Code(g))]) + StringOf(elems, ViewOf(reader))
  {
    hide Code;
    var all := [f, g] + elems;
    if reader.OnePass? {
      PairedPair(f, g, elems);
    } else {
      assert all[0] == f && all[1] == g && all[2..] == elems;
      PointsStep(all);
      NoSurrogateAppend([Combine(Code(f), Code(g))], Points(elems));
    }
  }

  // Within any string, a literal code stands for itself; control codes and surrogates are refused.
  lemma LiteralMeans(reader: Reader, a: Text, b: Text, x: Text, y: Text, c: int)
    requires IsString(reader, a, x) && IsString(reader, b, y) && c != '"' as int && c != '\\' as int
    ensures Read(reader, InQuotes(a + [c] + b)) ==
      if c < 0x20 || 0xD800 <= c <= 0xDFFF then No else Yes(Str(x + [c] + y))
  {
    hide Read;
    var tail := b + [QUOTE];
    assert ([c] + tail)[0] == c && ([c] + tail)[1..] == tail;
    Inserted(reader, a, b, x, y, [c], if c < 0x20 then None else Some(Raw(c)));
  }

  /******* White space, names, numbers and punctuation *******/

  lemma BlankDocument(c: int, s: Text, cfg: Config)
    requires Blank(c)
    ensures ParseDocument([c] + s, cfg) == match ParseDocument(s, cfg)
      case Bad => Bad
      case Ok(d, u, n) => Ok(d.(before := [c] + d.before), u, n)
  {
    hide ParseValue;
    assert ([c] + s)[0] == c && ([c] + s)[1..] == s;
  }

  // The four white space codes are skipped before a value.
  lemma BlankMeans(reader: Reader, c: int, s: Text)
    requires c == ' ' as int || c == '\t' as int || c == '\n' as int || c == '\r' as int
    ensures Read(reader, [c] + s) == Read(reader, s)
  {
    hide ParseDocument, Denote, Loadable, Clean, Accepts;
    var text := [c] + s;
    match reader {
      case OnePass(admits) => BlankDocument(c, s, StrictConfig(admits));
      case TwoPasses(decodes, safe) =>
        BlankDocument(c, s, SCAN_CONFIG);
        if ParseDocument(text, SCAN_CONFIG).Ok? {
          ScannedValue(text, decodes, safe);
          ScannedValue(s, decodes, safe);
        }
    }
  }

  // Nothing but white space and the first code of a value can begin a text.
  lemma BeginMeans(reader: Reader, c: int, s: Text)
    requires c != ' ' as int && c != '\t' as int && c != '\n' as int && c != '\r' as int
    requires c != '"' as int && c != '[' as int && c != '{' as int && c != '-' as int && !('0' as int <= c <= '9' as int)
    requires c != 't' as int && c != 'f' as int && c != 'n' as int
    ensures Read(reader, [c] + s) == No
  {
    var text := [c] + s;
    assert text[0] == c && SkipGap(text) == text;
    assert ParseScalar(text, 1, SCAN_CONFIG).Bad? by {
      assert !Starts(text, TRUE) && !Starts(text, FALSE) && !Starts(text, NULL) && ParseWhole(text).Bad?;
    }
    assert ParseDocument(text, SCAN_CONFIG).Bad?;
    if reader.OnePass? {
      StrictDocument(text, reader.admits);
    }
  }

  // A text that spells a scalar is read as that scalar.
  lemma ScalarDocument(reader: Reader, t: Tree)
    requires Wf(t) && (t.Word? || t.Digits?)
    ensures Read(reader, Spell(t, [])) == match t
      case Word(v) => Yes(v)
      case Digits(n) =>
        (var fine := match reader case OnePass(admits) => admits(n) case TwoPasses(decodes, safe) => decodes(n) && safe(n);
         if fine then Yes(Num(n)) else No)
      case _ => No
  {
    hide Spell, ParseDocument;
    var d, text := Item([], t, []), Spell(t, []);
    assert SpellDocument(d) == text by {
      assert [] + text == text;
    }
    DocumentComplete(d, SCAN_CONFIG);
    match reader {
      case OnePass(admits) => StrictDocument(text, admits);
      case TwoPasses(decodes, safe) => ScannedValue(text, decodes, safe);
    }
  }

  lemma NamesMean(reader: Reader)
    ensures Read(reader, ['t' as int, 'r' as int, 'u' as int, 'e' as int]) == Yes(Bool(true))
    ensures Read(reader, ['f' as int, 'a' as int, 'l' as int, 's' as int, 'e' as int]) == Yes(Bool(false))
    ensures Read(reader, ['n' as int, 'u' as int, 'l' as int, 'l' as int]) == Yes(Null)
  {
    hide Read;
    ScalarDocument(reader, Word(Bool(true)));
    ScalarDocument(reader, Word(Bool(false)));
    ScalarDocument(reader, Word(Null));
    assert TRUE + [] == TRUE && FALSE + [] == FALSE && NULL + [] == NULL;
  }

  predicate Decimal(s: Text) { forall i :: 0 <= i < |s| ==> '0' as int <= s[i] <= '9' as int }

  // The parts of a number, as section 6 puts them together.
  function NumberText(n: Number): Text {
    (if n.minus then ['-' as int] else []) + n.whole
    + (if n.fraction == [] then [] else ['.' as int] + n.fraction)
    + match n.exponent
      case NoExponent => []
      case Exponent(mark, sign, digits) => [mark] + sign + digits
  }

  predicate NumberParts(n: Number) {
    && n.whole != [] && Decimal(n.whole) && (|n.whole| > 1 ==> n.whole[0] != '0' as int) && Decimal(n.fraction)
    && match n.exponent
       case NoExponent => true
       case Exponent(mark, sign, digits) =>
         && (mark == 'e' as int || mark == 'E' as int) && (sign == [] || sign == ['+' as int] || sign == ['-' as int])
         && digits != [] && Decimal(digits)
  }

  // A number token is read as its parts, if the reader admits it.
  lemma NumberMeans(reader: Reader, n: Number)
    requires NumberParts(n)
    ensures var fine := match reader
        case OnePass(admits) => admits(n)
        case TwoPasses(decodes, safe) => decodes(n) && safe(n);
      Read(reader, NumberText(n)) == if fine then Yes(Num(n)) else No
  {
    hide Read;
    assert WfNumber(n);
    NumberSpelling(n);
    ScalarDocument(reader, Digits(n));
  }

  lemma NumberSpelling(n: Number)
    ensures SpellNumber(n, []) == NumberText(n)
  {
    var e, f := SpellExponent(n.exponent, []), SpellFraction(n.fraction, SpellExponent(n.exponent, []));
    assert n.exponent.Exponent? ==> e == [n.exponent.mark] + n.exponent.sign + n.exponent.digits;
    assert f == (if n.fraction == [] then [] else [POINT] + n.fraction) + e;
  }
}
