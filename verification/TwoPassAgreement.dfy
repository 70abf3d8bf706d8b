/**
 The two readers accept the same documents and return the same values.
 */
module TwoPassAgreement {
  import opened Unicode
  import opened JsonValues
  import opened JsonSyntax
  import opened JsonReading
  import opened TwoPass

  /******* Strings *******/

  lemma UnitsOfPair(high: int, low: int)
    requires High(high) && Low(low)
    ensures Scalar(Combine(high, low)) && Combine(high, low) >= 0x10000 && Units(Combine(high, low)) == [high, low]
  {
  }

  lemma PairedPair(e: Elem, f: Elem, rest: seq<Elem>)
    requires High(Code(e)) && Low(Code(f)) && e.Hex? == f.Hex?
    ensures Paired([e, f] + rest) == Paired(rest) && Codes([e, f] + rest) == [Code(e), Code(f)] + Codes(rest)
  {
    hide Code;
    var all := [e, f] + rest;
    assert all[2..] == rest && all[1..] == [f] + rest && ([f] + rest)[1..] == rest;
  }

  lemma PairedOne(e: Elem, rest: seq<Elem>)
    requires !High(Code(e))
    ensures Paired([e] + rest) == (!Low(Code(e)) && Paired(rest)) && Codes([e] + rest) == [Code(e)] + Codes(rest)
  {
    hide Code;
    assert ([e] + rest)[1..] == rest;
  }

  lemma Utf16Cons(c: int, p: Text)
    ensures Utf16([c] + p) == Units(c) + Utf16(p)
  {
    assert ([c] + p)[1..] == p;
  }

  // The units of a string pair up exactly when the decoded string has no surrogate left, and then they spell it.
  ghost predicate StringAgrees(elems: seq<Elem>) {
    var p := Points(elems);
    && Paired(EncodeElems(elems)) == NoSurrogate(p)
    && (NoSurrogate(p) ==> Scalars(p) && Codes(EncodeElems(elems)) == Utf16(p))
  }

  lemma {:induction false} ElemsAgree(elems: seq<Elem>)
    requires WfElems(elems) && RawScalars(elems)
    ensures StringAgrees(elems)
    decreases |elems|
  {
    if elems == [] {
    } else if JoinsNext(elems) {
      ElemsAgree(elems[2..]);
      JoinAgrees(elems);
    } else {
      ElemsAgree(elems[1..]);
      OneAgrees(elems);
    }
  }

  lemma JoinAgrees(elems: seq<Elem>)
    requires JoinsNext(elems) && StringAgrees(elems[2..])
    ensures StringAgrees(elems)
  {
    hide Code, Units, Paired, Codes, Points, Utf16;
    var e, f, rest := elems[0], elems[1], EncodeElems(elems[2..]);
    assert elems[1..][1..] == elems[2..];
    assert EncodeElems(elems) == [e] + ([f] + rest) == [e, f] + rest;
    PairedPair(e, f, rest);
    var c, p := Combine(Code(e), Code(f)), Points(elems[2..]);
    UnitsOfPair(Code(e), Code(f));
    PointsStep(elems);
    Utf16Cons(c, p);
    assert NoSurrogate([c] + p) == NoSurrogate(p) by { ConsNoSurrogate(c, p); }
  }

  lemma PointsStep(elems: seq<Elem>)
    requires elems != []
    ensures Points(elems) == if JoinsNext(elems)
      then [Combine(Code(elems[0]), Code(elems[1]))] + Points(elems[2..])
      else [Code(elems[0])] + Points(elems[1..])
  {
    hide Code;
  }

  lemma ConsNoSurrogate(c: int, p: Text)
    ensures NoSurrogate([c] + p) == (!Surrogate(c) && NoSurrogate(p))
    ensures Scalar(c) && Scalars(p) ==> Scalars([c] + p)
  {
    assert ([c] + p)[0] == c;
    if NoSurrogate([c] + p) {
      forall i | 0 <= i < |p| ensures !Surrogate(p[i]) {
        assert ([c] + p)[i + 1] == p[i];
      }
    }
  }

  lemma OneAgrees(elems: seq<Elem>)
    requires WfElems(elems) && RawScalars(elems) && elems != [] && !JoinsNext(elems) && StringAgrees(elems[1..])
    ensures StringAgrees(elems)
  {
    hide Code, Paired, Codes, Points, Utf16;
    var e, rest, p := elems[0], EncodeElems(elems[1..]), Points(elems[1..]);
    var c := Code(e);
    PointsStep(elems);
    ConsNoSurrogate(c, p);
    Utf16Cons(c, p);
    assert EncodeElems(elems) == EncodeElem(e) + rest;
    if e.Raw? {
      RawCode(e);
      if e.c >= 0x10000 {
        var f, g := Raw(Units(e.c)[0]), Raw(Units(e.c)[1]);
        RawCode(f);
        RawCode(g);
        PairedPair(f, g, rest);
      } else {
        PairedOne(e, rest);
      }
    } else {
      CodeRange(e);
      if High(c) {
        NotPaired(elems);
      } else {
        PairedOne(e, rest);
      }
    }
  }

  lemma RawCode(e: Elem)
    requires e.Raw?
    ensures Code(e) == e.c
  {
  }

  // An escaped high surrogate that does not join the next element is paired with nothing.
  lemma NotPaired(elems: seq<Elem>)
    requires elems != [] && elems[0].Hex? && High(Code(elems[0])) && !JoinsNext(elems)
    ensures !Paired(EncodeElems(elems))
  {
    hide Code, Units;
    var all := EncodeElems(elems);
    assert all == [elems[0]] + EncodeElems(elems[1..]);
    if |elems| > 1 {
      assert elems[1..][0] == elems[1];
      assert all[1] == EncodeElem(elems[1])[0];
    }
  }

  /******* Trees *******/

  function Both(decodes: Number -> bool, safe: Number -> bool): Number -> bool {
    n => decodes(n) && safe(n)
  }

  ghost predicate Agrees(t: Tree, decodes: Number -> bool, safe: Number -> bool) {
    var v := Denote(t, PointView);
    && Accepts(EncodeTree(t), Both(decodes, safe)) == (Loadable(t, decodes) && Clean(v, safe))
    && (Clean(v, safe) ==> Denote(EncodeTree(t), UnitView) == EncodeValue(v))
  }

  lemma {:induction false} TreeAgrees(t: Tree, decodes: Number -> bool, safe: Number -> bool)
    requires Wf(t) && RawTree(t)
    ensures Agrees(t, decodes, safe)
    decreases t, 1
  {
    hide Points, Codes, Paired, Utf16, EncodeElems;
    match t
    case Quoted(elems) => ElemsAgree(elems);
    case Array(items) => ItemsAgree(items, decodes, safe);
    case Object(pairs) => PairsAgree(pairs, decodes, safe, {}, {});
    case _ =>
  }

  lemma {:induction false} ItemsAgree(items: seq<Item>, decodes: Number -> bool, safe: Number -> bool)
    requires WfItems(items) && RawItems(items)
    ensures var vs := DenoteItems(items, PointView);
      && AcceptsItems(EncodeItems(items), Both(decodes, safe)) == (LoadableItems(items, decodes) && CleanItems(vs, safe))
      && (CleanItems(vs, safe) ==> DenoteItems(EncodeItems(items), UnitView) == EncodeValues(vs))
    decreases items, 0
  {
    if items != [] {
      hide Denote, Accepts, EncodeTree, Loadable, Clean, EncodeValue;
      var t := items[0].value;
      TreeAgrees(t, decodes, safe);
      ItemsAgree(items[1..], decodes, safe);
      assert EncodeItems(items)[1..] == EncodeItems(items[1..]);
      assert DenoteItems(items, PointView)[1..] == DenoteItems(items[1..], PointView);
    }
  }

  // The names seen as code points and the names seen as units are the same names.
  ghost predicate SameNames(points: set<Text>, units: set<Text>) {
    forall k: Text :: Scalars(k) ==> (k in points <==> Utf16(k) in units)
  }

  lemma SameNamesAdd(points: set<Text>, units: set<Text>, k: Text)
    requires SameNames(points, units) && Scalars(k)
    ensures SameNames(points + {k}, units + {Utf16(k)})
  {
    hide Utf16;
    forall q: Text | Scalars(q)
      ensures q in points + {k} <==> Utf16(q) in units + {Utf16(k)}
    {
      if Utf16(q) == Utf16(k) {
        Utf16Injective(q, k);
      }
    }
  }

  lemma {:induction false} PairsAgree(pairs: seq<Pair>, decodes: Number -> bool, safe: Number -> bool,
                                      points: set<Text>, units: set<Text>)
    requires WfPairs(pairs) && RawPairs(pairs) && SameNames(points, units)
    ensures var ms := DenotePairs(pairs, PointView);
      && AcceptsPairs(EncodePairs(pairs), Both(decodes, safe), units) ==
         (LoadablePairs(pairs, decodes, points) && CleanMembers(ms, safe))
      && (CleanMembers(ms, safe) ==> DenotePairs(EncodePairs(pairs), UnitView) == EncodeMembers(ms))
    decreases pairs, 0
  {
    if pairs != [] {
      hide Denote, Accepts, EncodeTree, Loadable, Clean, EncodeValue, Points, Codes, Paired, Utf16, EncodeElems;
      var p := pairs[0];
      ElemsAgree(p.key);
      TreeAgrees(p.value, decodes, safe);
      var k := Points(p.key);
      assert EncodePairs(pairs)[1..] == EncodePairs(pairs[1..]);
      assert DenotePairs(pairs, PointView)[1..] == DenotePairs(pairs[1..], PointView);
      if NoSurrogate(k) {
        SameNamesAdd(points, units, k);
        PairsAgree(pairs[1..], decodes, safe, points + {k}, units + {Utf16(k)});
      }
    }
  }

  /******* Documents *******/

  // For every text of code points, the one-pass reader on its UTF-16 form and the two-pass decoder on
  // the text itself refuse together or return the same value.
  lemma ReadersAgree(text: Text, decodes: Number -> bool, safe: Number -> bool)
    requires Scalars(text)
    ensures StrictRead(Utf16(text), Both(decodes, safe)) ==
      match DecodeText(text, decodes, safe)
      case No => No
      case Yes(v) => Yes(EncodeValue(v))
  {
    hide ParseDocument, Denote, Accepts, EncodeTree, Loadable, Clean, Wf, Utf16, RawTree, Loads;
    StrictDocument(Utf16(text), Both(decodes, safe));
    DocumentEncodes(text);
    var r := ParseDocument(text, SCAN_CONFIG);
    if r.Ok? {
      ScannedValue(text, decodes, safe);
      TreeAgrees(r.value.value, decodes, safe);
    }
  }

  // The byte order mark is refused by the grammar alone, so testing the first three bytes refuses nothing more.
  lemma ByteOrderMarkRefused(text: Text, cfg: Config)
    requires At(text, 0xFEFF)
    ensures ParseDocument(text, cfg).Bad?
  {
    assert SkipGap(text) == text;
    assert TRUE[0] != 0xFEFF && FALSE[0] != 0xFEFF && NULL[0] != 0xFEFF;
    assert ParseNumber(text).Bad?;
  }
}
