/**
 The two-pass decoder of vuoro_contracts/validation.py as a function over code points, and its
 agreement with the one-pass reader over the UTF-16 form of the same text.
 */
module TwoPass {
  import opened Unicode
  import opened JsonValues
  import opened JsonSyntax
  import opened JsonGrammar
  import opened JsonReading

  /******* What json.loads does with a grammatical text *******/

  // The hooks refuse a repeated name and a number that does not decode to a finite value.
  predicate Loadable(t: Tree, decodes: Number -> bool)
    decreases t, 1
  {
    match t
    case Digits(n) => decodes(n)
    case Array(items) => LoadableItems(items, decodes)
    case Object(pairs) => LoadablePairs(pairs, decodes, {})
    case _ => true
  }

  predicate LoadableItems(items: seq<Item>, decodes: Number -> bool)
    decreases items, 0
  {
    items == [] || (Loadable(items[0].value, decodes) && LoadableItems(items[1..], decodes))
  }

  predicate LoadablePairs(pairs: seq<Pair>, decodes: Number -> bool, seen: set<Text>)
    decreases pairs, 0
  {
    pairs == [] ||
    (&& Points(pairs[0].key) !in seen && Loadable(pairs[0].value, decodes)
     && LoadablePairs(pairs[1..], decodes, seen + {Points(pairs[0].key)}))
  }

  // json.loads with the two hooks: the value of the document the text spells.
  ghost function Loads(text: Text, decodes: Number -> bool): Outcome<Json> {
    if exists d :: WfItem(d) && SpellDocument(d) == text then
      var d :| WfItem(d) && SpellDocument(d) == text;
      if Loadable(d.value, decodes) then Yes(Denote(d.value, PointView)) else No
    else No
  }

  /******* What the final check accepts *******/

  // No surrogate is left in a string or a name, and every number is safe.
  ghost predicate Clean(v: Json, safe: Number -> bool)
    decreases v, 1
  {
    match v
    case Num(n) => safe(n)
    case Str(s) => NoSurrogate(s)
    case Arr(items) => CleanItems(items, safe)
    case Obj(members) => CleanMembers(members, safe)
    case _ => true
  }

  ghost predicate CleanItems(items: seq<Json>, safe: Number -> bool)
    decreases items, 0
  {
    items == [] || (Clean(items[0], safe) && CleanItems(items[1..], safe))
  }

  ghost predicate CleanMembers(members: seq<Member>, safe: Number -> bool)
    decreases members, 0
  {
    members == [] ||
    (NoSurrogate(members[0].key) && Clean(members[0].value, safe) && CleanMembers(members[1..], safe))
  }

  ghost predicate NoSurrogate(s: Text) { forall i :: 0 <= i < |s| ==> !Surrogate(s[i]) }

  ghost predicate Finite(v: Json, safe: Number -> bool) {
    Clean(v, safe) && Height(v) <= MAX_DEPTH && Count(v) <= MAX_NODES
  }

  // Scan, then decode, then check.
  ghost function DecodeText(text: Text, decodes: Number -> bool, safe: Number -> bool): Outcome<Json> {
    if ParseDocument(text, SCAN_CONFIG).Bad? then No
    else
      var v := Loads(text, decodes);
      if v.Yes? && Finite(v.value, safe) then v else No
  }

  // After a successful scan the value has the size the scan counted, so only surrogates, names and
  // numbers can still be refused.
  lemma ScannedValue(text: Text, decodes: Number -> bool, safe: Number -> bool)
    requires ParseDocument(text, SCAN_CONFIG).Ok?
    ensures var t := ParseDocument(text, SCAN_CONFIG).value.value;
      && Wf(t)
      && Loads(text, decodes) == (if Loadable(t, decodes) then Yes(Denote(t, PointView)) else No)
      && Height(Denote(t, PointView)) <= MAX_DEPTH && Count(Denote(t, PointView)) <= MAX_NODES
    ensures Loads(text, decodes).Yes? ==>
      Finite(Loads(text, decodes).value, safe) == Clean(Loads(text, decodes).value, safe)
  {
    hide ParseDocument, Denote, Loadable, Wf, Spell;
    DocumentSound(text, SCAN_CONFIG);
    var d := ParseDocument(text, SCAN_CONFIG).value;
    assert WfItem(d) && SpellDocument(d) == text;
    forall e | WfItem(e) && SpellDocument(e) == text ensures e == d {
      Unambiguous(d, e);
    }
    DenoteSize(d.value, PointView);
  }

  /******* The UTF-16 form of a tree *******/

  function EncodeElem(e: Elem): seq<Elem> {
    if e.Raw? && e.c >= 0x10000 then [Raw(Units(e.c)[0]), Raw(Units(e.c)[1])] else [e]
  }

  function EncodeElems(elems: seq<Elem>): seq<Elem> {
    if elems == [] then [] else EncodeElem(elems[0]) + EncodeElems(elems[1..])
  }

  function EncodeTree(t: Tree): Tree
    decreases t, 1
  {
    match t
    case Quoted(elems) => Quoted(EncodeElems(elems))
    case Array(items) => Array(EncodeItems(items))
    case Object(pairs) => Object(EncodePairs(pairs))
    case _ => t
  }

  function EncodeItems(items: seq<Item>): seq<Item>
    decreases items, 0
  {
    if items == [] then [] else [items[0].(value := EncodeTree(items[0].value))] + EncodeItems(items[1..])
  }

  function EncodePair(p: Pair): Pair { p.(key := EncodeElems(p.key), value := EncodeTree(p.value)) }

  function EncodePairs(pairs: seq<Pair>): seq<Pair>
    decreases pairs, 0
  {
    if pairs == [] then []
    else [pairs[0].(key := EncodeElems(pairs[0].key), value := EncodeTree(pairs[0].value))] + EncodePairs(pairs[1..])
  }

  function EncodeValue(v: Json): Json
    decreases v, 1
  {
    match v
    case Str(s) => Str(Utf16(s))
    case Arr(items) => Arr(EncodeValues(items))
    case Obj(members) => Obj(EncodeMembers(members))
    case _ => v
  }

  function EncodeValues(items: seq<Json>): seq<Json>
    decreases items, 0
  {
    if items == [] then [] else [EncodeValue(items[0])] + EncodeValues(items[1..])
  }

  function EncodeMembers(members: seq<Member>): seq<Member>
    decreases members, 0
  {
    if members == [] then []
    else [Member(Utf16(members[0].key), EncodeValue(members[0].value))] + EncodeMembers(members[1..])
  }

  /******* Parsing commutes with encoding *******/

  lemma Utf16Step(s: Text)
    requires Scalars(s) && s != []
    ensures Utf16(s) != [] && Scalars(s[1..])
    ensures s[0] < 0x10000 ==> Utf16(s)[0] == s[0] && Utf16(s)[1..] == Utf16(s[1..])
    ensures s[0] >= 0x10000 ==> |Utf16(s)| >= 2 && High(Utf16(s)[0]) && Utf16(s)[2..] == Utf16(s[1..])
  {
    var u := Units(s[0]);
    assert Utf16(s)[|u|..] == Utf16(s[1..]);
  }

  lemma {:induction false} GapEncodes(s: Text)
    requires Scalars(s)
    ensures Scalars(SkipGap(s)) && Gap(Utf16(s)) == Gap(s) && SkipGap(Utf16(s)) == Utf16(SkipGap(s))
  {
    if s != [] {
      Utf16Step(s);
      if Blank(s[0]) {
        GapEncodes(s[1..]);
      }
    }
  }

  lemma {:induction false} RunEncodes(s: Text)
    requires Scalars(s)
    ensures Scalars(SkipRun(s)) && Run(Utf16(s)) == Run(s) && SkipRun(Utf16(s)) == Utf16(SkipRun(s))
  {
    if s != [] {
      Utf16Step(s);
      if Digit(s[0]) {
        RunEncodes(s[1..]);
      }
    }
  }

  ghost predicate RawScalars(elems: seq<Elem>) {
    forall i :: 0 <= i < |elems| && elems[i].Raw? ==> Scalar(elems[i].c)
  }

  // The first four hexadecimal digits, if there are four, are at the same place in both forms.
  predicate HexDigits(s: Text, k: nat) { k <= |s| && forall i :: 0 <= i < k ==> HexDigit(s[i]) }

  lemma {:induction false} HexEncodes(s: Text, k: nat)
    requires Scalars(s)
    ensures HexDigits(Utf16(s), k) == HexDigits(s, k)
    ensures HexDigits(s, k) ==>
      && (forall i :: 0 <= i < k ==> Utf16(s)[i] == s[i])
      && Utf16(s)[k..] == Utf16(s[k..]) && Scalars(s[k..])
  {
    hide Utf16;
    if k == 0 {
      assert s[0..] == s && Utf16(s)[0..] == Utf16(s);
    } else if s == [] {
      Utf16Nothing();
    } else {
      Utf16Step(s);
      HexEncodes(s[1..], k - 1);
      HexTail(s, k);
      HexTail(Utf16(s), k);
      if HexDigits(s, k) {
        assert s[k..] == s[1..][k - 1..] && Utf16(s)[k..] == Utf16(s)[1..][k - 1..];
        forall i | 0 < i < k ensures Utf16(s)[i] == s[i] {
          assert Utf16(s)[i] == Utf16(s)[1..][i - 1] && s[i] == s[1..][i - 1];
        }
      }
    }
  }

  lemma Utf16Nothing()
    ensures Utf16([]) == []
  {
  }

  lemma HexTail(s: Text, k: nat)
    requires s != [] && k > 0
    ensures HexDigits(s, k) == (HexDigit(s[0]) && HexDigits(s[1..], k - 1))
  {
    if HexDigit(s[0]) && HexDigits(s[1..], k - 1) {
      forall i | 0 <= i < k ensures HexDigit(s[i]) {
        assert i > 0 ==> s[i] == s[1..][i - 1];
      }
    }
  }

  lemma {:induction false} WordEncodes(s: Text, word: Text)
    requires Scalars(s) && forall i :: 0 <= i < |word| ==> word[i] < 0x80
    ensures Starts(Utf16(s), word) == Starts(s, word)
    ensures Starts(s, word) ==> Utf16(s)[|word|..] == Utf16(s[|word|..]) && Scalars(s[|word|..])
  {
    hide Utf16;
    if word == [] {
      assert s[0..] == s && Utf16(s)[0..] == Utf16(s);
    } else if s == [] {
      Utf16Nothing();
    } else {
      Utf16Step(s);
      WordEncodes(s[1..], word[1..]);
      WordTail(s, word);
      WordTail(Utf16(s), word);
    }
  }

  lemma WordTail(s: Text, word: Text)
    requires s != [] && word != []
    ensures Starts(s, word) == (s[0] == word[0] && Starts(s[1..], word[1..]))
    ensures Starts(s, word) ==> s[|word|..] == s[1..][|word| - 1..]
  {
    if |word| <= |s| {
      assert s[..|word|] == [s[0]] + s[1..][..|word| - 1];
      assert word == [word[0]] + word[1..];
    }
  }

  // An escape read one code at a time.
  function ParseEscape(s: Text): Parsed<Elem> {
    if s == [] then Bad
    else if s[0] == 0x75 then
      var u := s[1..];
      if HexDigits(u, 4) then Ok(Hex(u[0], u[1], u[2], u[3]), u[4..], 0) else Bad
    else if ShortMark(s[0]) then Ok(Short(s[0]), s[1..], 0) else Bad
  }

  lemma ElemIsEscape(s: Text)
    requires At(s, BACKSLASH)
    ensures ParseElem(s) == ParseEscape(s[1..])
  {
    if |s| > 1 {
      var u := s[1..][1..];
      assert u == s[2..];
      assert |s| >= 6 ==> u[4..] == s[6..];
      assert |s| >= 6 && HexDigit(s[2]) && HexDigit(s[3]) && HexDigit(s[4]) && HexDigit(s[5]) <==> HexDigits(u, 4);
    }
  }

  lemma EscapeEncodes(s: Text)
    requires Scalars(s)
    ensures var r, q := ParseEscape(s), ParseEscape(Utf16(s));
      if r.Bad? then q.Bad?
      else q == Ok(r.value, Utf16(r.rest), 0) && Scalars(r.rest) && !r.value.Raw?
  {
    hide Utf16;
    if s == [] {
      Utf16Nothing();
    } else {
      Utf16Step(s);
      HexEncodes(s[1..], 4);
    }
  }

  lemma ElemEncodes(s: Text)
    requires Scalars(s) && s != [] && s[0] < 0x10000
    ensures var r, q := ParseElem(s), ParseElem(Utf16(s));
      if r.Bad? then q.Bad?
      else q == Ok(r.value, Utf16(r.rest), 0) && Scalars(r.rest) && EncodeElem(r.value) == [r.value]
           && (r.value.Raw? ==> Scalar(r.value.c))
  {
    hide Utf16;
    Utf16Step(s);
    if s[0] == BACKSLASH {
      hide ParseElem;
      ElemIsEscape(s);
      ElemIsEscape(Utf16(s));
      EscapeEncodes(s[1..]);
    }
  }

  // Elements of a string: a wide code point becomes two literal units.
  lemma {:induction false} ElemsEncodes(s: Text)
    requires Scalars(s)
    ensures var r, q := ParseElems(s), ParseElems(Utf16(s));
      if r.Bad? then q.Bad?
      else q == Ok(EncodeElems(r.value), Utf16(r.rest), 0) && r.nodes == 0 && Scalars(r.rest) && RawScalars(r.value)
    decreases |s|
  {
    hide Utf16, EncodeElem;
    if s == [] {
      Utf16Nothing();
    } else if s[0] == QUOTE {
      Utf16Step(s);
    } else {
      Utf16Step(s);
      if s[0] < 0x10000 {
        hide ParseElem, EncodeElems;
        var e := ParseElem(s);
        ElemEncodes(s);
        if e.Ok? {
          ElemsEncodes(e.rest);
          PushEncoded(e.value, ParseElems(e.rest));
        }
      } else {
        hide EncodeElems;
        ElemsEncodes(s[1..]);
        WideUnits(s);
        var u := Utf16(s);
        TwoRaw(u);
        var r := ParseElems(s[1..]);
        assert ParseElems(s) == PushElem(Raw(s[0]), r);
        PushEncoded(Raw(s[0]), r);
        if r.Ok? {
          var es := EncodeElems(r.value);
          assert [Raw(u[0])] + ([Raw(u[1])] + es) == [Raw(u[0]), Raw(u[1])] + es;
        }
      }
    }
  }

  lemma TwoRaw(u: Text)
    requires |u| >= 2 && High(u[0]) && Low(u[1])
    ensures ParseElems(u) == PushElem(Raw(u[0]), PushElem(Raw(u[1]), ParseElems(u[2..])))
  {
    assert u[1..][1..] == u[2..];
    assert ParseElem(u) == Ok(Raw(u[0]), u[1..], 0);
    assert ParseElem(u[1..]) == Ok(Raw(u[1]), u[2..], 0);
  }

  lemma WideUnits(s: Text)
    requires Scalars(s) && s != [] && s[0] >= 0x10000
    ensures |Utf16(s)| >= 2 && High(Utf16(s)[0]) && Low(Utf16(s)[1])
    ensures EncodeElem(Raw(s[0])) == [Raw(Utf16(s)[0]), Raw(Utf16(s)[1])]
  {
  }

  // Putting an element in front of a list of elements puts its units in front of theirs.
  lemma PushEncoded(e: Elem, r: Parsed<seq<Elem>>)
    requires r.Ok? ==> RawScalars(r.value)
    requires e.Raw? ==> Scalar(e.c)
    ensures var p := PushElem(e, r);
      p.Ok? ==> p.value == [e] + r.value && EncodeElems(p.value) == EncodeElem(e) + EncodeElems(r.value) && RawScalars(p.value)
  {
    if r.Ok? {
      assert ([e] + r.value)[1..] == r.value;
    }
  }

  // The literal codes in the strings of a tree are code points.
  ghost predicate RawTree(t: Tree)
    decreases t, 1
  {
    match t
    case Quoted(elems) => RawScalars(elems)
    case Array(items) => RawItems(items)
    case Object(pairs) => RawPairs(pairs)
    case _ => true
  }

  ghost predicate RawItems(items: seq<Item>)
    decreases items, 0
  {
    items == [] || (RawTree(items[0].value) && RawItems(items[1..]))
  }

  ghost predicate RawPairs(pairs: seq<Pair>)
    decreases pairs, 0
  {
    pairs == [] || (RawScalars(pairs[0].key) && RawTree(pairs[0].value) && RawPairs(pairs[1..]))
  }

  lemma ExponentEncodes(s: Text)
    requires Scalars(s)
    ensures var r, q := ParseExponent(s), ParseExponent(Utf16(s));
      if r.Bad? then q.Bad? else q == Ok(r.value, Utf16(r.rest), 0) && Scalars(r.rest)
  {
    hide Utf16, Run, SkipRun;
    if s == [] {
      Utf16Nothing();
    } else {
      Utf16Step(s);
      var x := s[1..];
      RunEncodes(x);
      if x == [] {
        Utf16Nothing();
      } else {
        Utf16Step(x);
        RunEncodes(x[1..]);
        assert s[0] < 0x10000 ==> Utf16(s)[1] == Utf16(s)[1..][0];
      }
    }
  }

  lemma FractionEncodes(s: Text)
    requires Scalars(s)
    ensures var r, q := ParseFraction(s), ParseFraction(Utf16(s));
      if r.Bad? then q.Bad? else q == Ok(r.value, Utf16(r.rest), 0) && Scalars(r.rest)
  {
    hide Utf16, Run, SkipRun;
    if s == [] {
      Utf16Nothing();
    } else {
      Utf16Step(s);
      RunEncodes(s[1..]);
    }
  }

  lemma WholeEncodes(s: Text)
    requires Scalars(s)
    ensures var r, q := ParseWhole(s), ParseWhole(Utf16(s));
      if r.Bad? then q.Bad? else q == Ok(r.value, Utf16(r.rest), 0) && Scalars(r.rest)
  {
    hide Utf16, Run, SkipRun;
    if s == [] {
      Utf16Nothing();
    } else {
      Utf16Step(s);
      RunEncodes(s);
      if s[1..] == [] {
        Utf16Nothing();
      } else {
        Utf16Step(s[1..]);
        assert s[0] < 0x10000 ==> Utf16(s)[1] == Utf16(s)[1..][0];
      }
    }
  }

  lemma UnsignedEncodes(minus: bool, s: Text)
    requires Scalars(s)
    ensures var r, q := ParseUnsigned(minus, s), ParseUnsigned(minus, Utf16(s));
      if r.Bad? then q.Bad? else q == Ok(r.value, Utf16(r.rest), 0) && Scalars(r.rest)
  {
    hide Utf16, ParseWhole, ParseFraction, ParseExponent;
    WholeEncodes(s);
    var whole := ParseWhole(s);
    if whole.Ok? {
      FractionEncodes(whole.rest);
      var fraction := ParseFraction(whole.rest);
      if fraction.Ok? {
        ExponentEncodes(fraction.rest);
      }
    }
  }

  lemma ScalarEncodes(s: Text, nodes: nat)
    requires Scalars(s) && s != []
    ensures var r, q := ParseScalar(s, nodes, SCAN_CONFIG), ParseScalar(Utf16(s), nodes, SCAN_CONFIG);
      if r.Bad? then q.Bad?
      else q == Ok(EncodeTree(r.value), Utf16(r.rest), r.nodes) && Scalars(r.rest) && RawTree(r.value)
  {
    hide Utf16, ParseUnsigned, Starts;
    WordEncodes(s, TRUE);
    WordEncodes(s, FALSE);
    WordEncodes(s, NULL);
    Utf16Step(s);
    UnsignedEncodes(true, s[1..]);
    UnsignedEncodes(false, s);
  }

  lemma {:induction false} ValueEncodes(s: Text, depth: nat, nodes: nat)
    requires Scalars(s)
    ensures var r, q := ParseValue(s, depth, nodes, SCAN_CONFIG), ParseValue(Utf16(s), depth, nodes, SCAN_CONFIG);
      if r.Bad? then q.Bad?
      else q == Ok(EncodeTree(r.value), Utf16(r.rest), r.nodes) && Scalars(r.rest) && RawTree(r.value)
    decreases |s|, 1
  {
    hide Utf16, ParseElems, ParseScalar, ParseItems, ParsePairs, Gap, SkipGap;
    if s == [] {
      Utf16Nothing();
    } else {
      Utf16Step(s);
      var x := s[1..];
      if s[0] == QUOTE {
        ElemsEncodes(x);
      } else if s[0] == OPEN_OBJECT || s[0] == OPEN_ARRAY {
        GapEncodes(x);
        var u := SkipGap(x);
        if u == [] {
          Utf16Nothing();
        } else {
          Utf16Step(u);
        }
        if s[0] == OPEN_OBJECT {
          PairsEncodes(Gap(x), u, depth, nodes + 1, {}, {});
        } else {
          ItemsEncodes(Gap(x), u, depth, nodes + 1);
        }
      } else {
        ScalarEncodes(s, nodes + 1);
      }
    }
  }

  // The code at the front of a text is the unit at the front of its UTF-16 form, if it is narrow.
  lemma AtEncodes(s: Text, c: int)
    requires Scalars(s) && 0 <= c < 0xD800
    ensures At(Utf16(s), c) == At(s, c)
    ensures At(s, c) ==> Utf16(s)[1..] == Utf16(s[1..]) && Scalars(s[1..])
  {
    hide Utf16;
    if s == [] {
      Utf16Nothing();
    } else {
      Utf16Step(s);
    }
  }

  lemma {:induction false} ItemsEncodes(gap: Text, s: Text, depth: nat, nodes: nat)
    requires Scalars(s)
    ensures var r, q := ParseItems(gap, s, depth, nodes, SCAN_CONFIG), ParseItems(gap, Utf16(s), depth, nodes, SCAN_CONFIG);
      if r.Bad? then q.Bad?
      else q == Ok(EncodeItems(r.value), Utf16(r.rest), r.nodes) && Scalars(r.rest) && RawItems(r.value)
    decreases |s|, 2
  {
    hide Utf16, ParseValue, Gap, SkipGap, EncodeTree, RawTree;
    ValueEncodes(s, depth + 1, nodes);
    var v := ParseValue(s, depth + 1, nodes, SCAN_CONFIG);
    if v.Ok? {
      GapEncodes(v.rest);
      var w := SkipGap(v.rest);
      AtEncodes(w, CLOSE_ARRAY);
      AtEncodes(w, COMMA);
      var item := Item(gap, v.value, Gap(v.rest));
      if At(w, COMMA) {
        var x := w[1..];
        GapEncodes(x);
        ItemsEncodes(Gap(x), SkipGap(x), depth, v.nodes);
        PushItemEncoded(item, ParseItems(Gap(x), SkipGap(x), depth, v.nodes, SCAN_CONFIG));
      } else {
        PushItemEncoded(item, Ok([], [], 0));
      }
    }
  }

  lemma PushItemEncoded(item: Item, r: Parsed<seq<Item>>)
    requires RawTree(item.value) && (r.Ok? ==> RawItems(r.value))
    ensures var p := PushItem(item, r); var e := item.(value := EncodeTree(item.value));
      p.Ok? ==> EncodeItems(p.value) == [e] + EncodeItems(r.value) && RawItems(p.value)
    ensures EncodeItems([item]) == [item.(value := EncodeTree(item.value))] && RawItems([item])
  {
    assert [item][1..] == [];
    if r.Ok? {
      assert ([item] + r.value)[1..] == r.value;
    }
  }

  lemma PushPairEncoded(pair: Pair, r: Parsed<seq<Pair>>)
    requires RawScalars(pair.key) && RawTree(pair.value) && (r.Ok? ==> RawPairs(r.value))
    ensures var p := PushPair(pair, r);
      p.Ok? ==> EncodePairs(p.value) == [EncodePair(pair)] + EncodePairs(r.value) && RawPairs(p.value)
    ensures EncodePairs([pair]) == [EncodePair(pair)] && RawPairs([pair])
  {
    assert [pair][1..] == [];
    if r.Ok? {
      assert ([pair] + r.value)[1..] == r.value;
    }
  }

  lemma NameEncodes(gap: Text, s: Text, seen: set<Text>, seen': set<Text>)
    requires Scalars(s)
    ensures var r, q := ParseName(gap, s, SCAN_CONFIG, seen), ParseName(gap, Utf16(s), SCAN_CONFIG, seen');
      if r.Bad? then q.Bad?
      else q == Ok(r.value.(key := EncodeElems(r.value.key)), Utf16(r.rest), 0) && Scalars(r.rest) && RawScalars(r.value.key)
  {
    hide Utf16, ParseElems, Gap, SkipGap, EncodeElems;
    AtEncodes(s, QUOTE);
    if At(s, QUOTE) {
      ElemsEncodes(s[1..]);
      var key := ParseElems(s[1..]);
      if key.Ok? {
        GapEncodes(key.rest);
        var w := SkipGap(key.rest);
        AtEncodes(w, COLON);
        if At(w, COLON) {
          GapEncodes(w[1..]);
        }
      }
    }
  }

  // The names seen so far do not matter to the lenient parser.
  lemma {:induction false} PairsEncodes(
    gap: Text, s: Text, depth: nat, nodes: nat, seen: set<Text>, seen': set<Text>)
    requires Scalars(s)
    ensures var r, q := ParsePairs(gap, s, depth, nodes, SCAN_CONFIG, seen),
                        ParsePairs(gap, Utf16(s), depth, nodes, SCAN_CONFIG, seen');
      if r.Bad? then q.Bad?
      else q == Ok(EncodePairs(r.value), Utf16(r.rest), r.nodes) && Scalars(r.rest) && RawPairs(r.value)
    decreases |s|, 2
  {
    hide Utf16, ParseValue, ParseName, Gap, SkipGap, EncodeTree, EncodeElems, RawTree, Codes;
    NameEncodes(gap, s, seen, seen');
    var name := ParseName(gap, s, SCAN_CONFIG, seen);
    if name.Ok? {
      ValueEncodes(name.rest, depth + 1, nodes);
      var v := ParseValue(name.rest, depth + 1, nodes, SCAN_CONFIG);
      if v.Ok? {
        GapEncodes(v.rest);
        var w := SkipGap(v.rest);
        AtEncodes(w, CLOSE_OBJECT);
        AtEncodes(w, COMMA);
        var pair := name.value.(value := v.value, after := Gap(v.rest));
        if At(w, COMMA) {
          var x := w[1..];
          GapEncodes(x);
          var more, more' := seen + {Codes(pair.key)}, seen' + {Codes(EncodeElems(pair.key))};
          PairsEncodes(Gap(x), SkipGap(x), depth, v.nodes, more, more');
          PushPairEncoded(pair, ParsePairs(Gap(x), SkipGap(x), depth, v.nodes, SCAN_CONFIG, more));
        } else {
          PushPairEncoded(pair, Ok([], [], 0));
        }
      }
    }
  }

  // The scan sees the same structure in both forms of a text.
  lemma DocumentEncodes(s: Text)
    requires Scalars(s)
    ensures var r, q := ParseDocument(s, SCAN_CONFIG), ParseDocument(Utf16(s), SCAN_CONFIG);
      if r.Bad? then q.Bad?
      else q == Ok(r.value.(value := EncodeTree(r.value.value)), [], r.nodes) && RawTree(r.value.value)
  {
    hide Utf16, ParseValue, Gap, SkipGap, EncodeTree, RawTree;
    GapEncodes(s);
    ValueEncodes(SkipGap(s), 0, 0);
    var v := ParseValue(SkipGap(s), 0, 0, SCAN_CONFIG);
    if v.Ok? {
      GapEncodes(v.rest);
      var w := SkipGap(v.rest);
      Utf16Nothing();
      if w != [] {
        Utf16Step(w);
      }
    }
  }
}
