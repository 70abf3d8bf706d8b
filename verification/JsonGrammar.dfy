/**
 The parser of `JsonSyntax` is sound and complete for the grammar: it returns a tree exactly
 when the text is the spelling of that tree within the limits, so every document has one tree.
 */
module JsonGrammar {
  import opened Unicode
  import opened JsonValues
  import opened JsonSyntax

  /******* Runs of white space and digits *******/

  lemma Uncons(s: Text)
    requires s != []
    ensures s == [s[0]] + s[1..]
  {
  }

  lemma Cons(c: int, s: Text)
    ensures ([c] + s)[0] == c && ([c] + s)[1..] == s && [c] + s != []
  {
  }

  lemma {:induction false} GapSound(s: Text)
    ensures Blanks(Gap(s)) && s == Gap(s) + SkipGap(s)
  {
    if s != [] && Blank(s[0]) {
      GapSound(s[1..]);
      Uncons(s);
      assert ([s[0]] + Gap(s[1..])) + SkipGap(s) == [s[0]] + (Gap(s[1..]) + SkipGap(s));
    } else {
      assert [] + s == s;
    }
  }

  lemma {:induction false} GapExact(b: Text, rest: Text)
    requires Blanks(b) && (rest != [] ==> !Blank(rest[0]))
    ensures Gap(b + rest) == b && SkipGap(b + rest) == rest
  {
    if b == [] {
      assert b + rest == rest;
    } else {
      assert (b + rest)[1..] == b[1..] + rest;
      GapExact(b[1..], rest);
    }
  }

  lemma {:induction false} RunSound(s: Text)
    ensures AllDigits(Run(s)) && s == Run(s) + SkipRun(s)
  {
    if s != [] && Digit(s[0]) {
      RunSound(s[1..]);
      Uncons(s);
      assert ([s[0]] + Run(s[1..])) + SkipRun(s) == [s[0]] + (Run(s[1..]) + SkipRun(s));
    } else {
      assert [] + s == s;
    }
  }

  lemma {:induction false} RunExact(b: Text, rest: Text)
    requires AllDigits(b) && (rest != [] ==> !Digit(rest[0]))
    ensures Run(b + rest) == b && SkipRun(b + rest) == rest
  {
    if b == [] {
      assert b + rest == rest;
    } else {
      assert (b + rest)[1..] == b[1..] + rest;
      RunExact(b[1..], rest);
    }
  }

  /******* Strings *******/

  lemma ElemSound(s: Text)
    requires ParseElem(s).Ok?
    ensures var r := ParseElem(s); s == SpellElem(r.value, r.rest)
    ensures s[0] != QUOTE ==> WfElem(ParseElem(s).value)
  {
  }

  lemma {:induction false} ElemsSound(s: Text)
    requires ParseElems(s).Ok?
    ensures var r := ParseElems(s); WfElems(r.value) && s == SpellElems(r.value, r.rest)
    decreases |s|
  {
    if At(s, QUOTE) {
      Uncons(s);
    } else {
      ElemSound(s);
      var e := ParseElem(s);
      ElemsSound(e.rest);
      assert ParseElems(s).value[1..] == ParseElems(e.rest).value;
    }
  }

  lemma ElemComplete(e: Elem, rest: Text)
    requires WfElem(e)
    ensures ParseElem(SpellElem(e, rest)) == Ok(e, rest, 0) && !At(SpellElem(e, rest), QUOTE)
  {
    var s := SpellElem(e, rest);
    match e
    case Raw(c) => assert s[1..] == rest;
    case Short(m) => assert s[2..] == rest;
    case Hex(_, _, _, _) => assert s[6..] == rest;
  }

  lemma {:induction false} ElemsComplete(elems: seq<Elem>, rest: Text)
    requires WfElems(elems)
    ensures ParseElems(SpellElems(elems, rest)) == Ok(elems, rest, 0)
  {
    if elems == [] {
      Cons(QUOTE, rest);
    } else {
      ElemComplete(elems[0], SpellElems(elems[1..], rest));
      ElemsComplete(elems[1..], rest);
      assert [elems[0]] + elems[1..] == elems;
    }
  }

  /******* Numbers *******/

  ghost predicate WfExponent(e: Exponent) { WfNumber(Number(false, [0x30], [], e)) }

  // The digits of an exponent after its mark and its sign.
  lemma ExponentDigits(mark: int, sign: Text, u: Text)
    requires (mark == 0x65 || mark == 0x45) && (sign == [] || sign == [PLUS] || sign == [MINUS]) && Run(u) != []
    ensures WfExponent(Exponent(mark, sign, Run(u)))
    ensures [mark] + (sign + u) == SpellExponent(Exponent(mark, sign, Run(u)), SkipRun(u))
  {
    RunSound(u);
    hide Run, SkipRun;
  }

  lemma ExponentSound(s: Text)
    requires ParseExponent(s).Ok?
    ensures var r := ParseExponent(s); WfExponent(r.value) && s == SpellExponent(r.value, r.rest)
  {
    hide Run, SkipRun, SpellExponent, WfNumber;
    var r := ParseExponent(s);
    if r.value.Exponent? {
      var sign := r.value.sign;
      var u := if sign == [] then s[1..] else s[1..][1..];
      ExponentDigits(s[0], sign, u);
      assert s == [s[0]] + (sign + u) by {
        Uncons(s);
        if sign == [] {
          assert [] + u == u;
        } else {
          Uncons(s[1..]);
        }
      }
    } else {
      NoExponentSound(s);
    }
  }

  lemma NoExponentSound(s: Text)
    ensures WfExponent(NoExponent) && SpellExponent(NoExponent, s) == s
  {
  }

  lemma FractionSound(s: Text)
    requires ParseFraction(s).Ok?
    ensures var r := ParseFraction(s); AllDigits(r.value) && s == SpellFraction(r.value, r.rest)
  {
    if At(s, POINT) {
      RunSound(s[1..]);
      Uncons(s);
    }
  }

  lemma WholeSound(s: Text)
    requires ParseWhole(s).Ok?
    ensures var r := ParseWhole(s);
      && s == r.value + r.rest && AllDigits(r.value) && r.value != []
      && (r.value[0] == 0x30 ==> |r.value| == 1)
  {
    RunSound(s);
    if s[0] == 0x30 {
      assert Run(s[1..]) == [];
    }
  }

  lemma NumberSound(s: Text)
    requires ParseNumber(s).Ok?
    ensures var r := ParseNumber(s); WfNumber(r.value) && s == SpellNumber(r.value, r.rest)
  {
    if At(s, MINUS) {
      UnsignedSound(true, s[1..]);
      Uncons(s);
    } else {
      UnsignedSound(false, s);
    }
  }

  lemma UnsignedSound(minus: bool, s: Text)
    requires ParseUnsigned(minus, s).Ok?
    ensures var r := ParseUnsigned(minus, s);
      && WfNumber(r.value) && r.value.minus == minus
      && s == r.value.whole + SpellFraction(r.value.fraction, SpellExponent(r.value.exponent, r.rest))
  {
    WholeSound(s);
    FractionSound(ParseWhole(s).rest);
    ExponentSound(ParseFraction(ParseWhole(s).rest).rest);
  }

  // What may follow a value inside a document; in particular nothing that prolongs a number.
  predicate Stop(rest: Text) {
    rest == [] || Blank(rest[0]) || rest[0] == COMMA || rest[0] == CLOSE_ARRAY || rest[0] == CLOSE_OBJECT
  }

  lemma ExponentComplete(e: Exponent, rest: Text)
    requires WfExponent(e) && Stop(rest)
    ensures var s := SpellExponent(e, rest);
      ParseExponent(s) == Ok(e, rest, 0) && (s != [] ==> !Digit(s[0]) && s[0] != POINT)
  {
    if e.Exponent? {
      var u := e.digits + rest;
      RunExact(e.digits, rest);
      Cons(e.mark, e.sign + u);
      assert u[0] == e.digits[0];
      if e.sign == [] {
        assert e.sign + u == u;
      } else {
        Cons(e.sign[0], u);
      }
    }
  }

  lemma FractionComplete(f: Text, rest: Text)
    requires AllDigits(f) && (rest != [] ==> !Digit(rest[0]) && rest[0] != POINT)
    ensures var s := SpellFraction(f, rest);
      ParseFraction(s) == Ok(f, rest, 0) && (s != [] ==> !Digit(s[0]))
  {
    if f != [] {
      Cons(POINT, f + rest);
      RunExact(f, rest);
    }
  }

  lemma WholeComplete(w: Text, rest: Text)
    requires AllDigits(w) && w != [] && (w[0] == 0x30 ==> |w| == 1) && (rest != [] ==> !Digit(rest[0]))
    ensures ParseWhole(w + rest) == Ok(w, rest, 0) && !At(w + rest, MINUS)
  {
    RunExact(w, rest);
    assert (w + rest)[0] == w[0];
    if |w| == 1 && rest != [] {
      assert (w + rest)[1] == rest[0];
    }
  }

  lemma NumberComplete(n: Number, rest: Text)
    requires WfNumber(n) && Stop(rest)
    ensures ParseNumber(SpellNumber(n, rest)) == Ok(n, rest, 0)
    ensures var s := SpellNumber(n, rest); s != [] && (s[0] == MINUS || Digit(s[0]))
  {
    ExponentComplete(n.exponent, rest);
    var w := SpellExponent(n.exponent, rest);
    FractionComplete(n.fraction, w);
    var u := SpellFraction(n.fraction, w);
    WholeComplete(n.whole, u);
    assert (n.whole + u)[0] == n.whole[0];
    assert ParseUnsigned(n.minus, n.whole + u) == Ok(n, rest, 0);
    Cons(MINUS, n.whole + u);
  }

  /******* Soundness *******/

  lemma ScalarSound(s: Text, nodes: nat, cfg: Config)
    requires s != [] && ParseScalar(s, nodes, cfg).Ok?
    ensures var r := ParseScalar(s, nodes, cfg);
      && Wf(r.value) && s == Spell(r.value, r.rest)
      && r.nodes == nodes && TreeCount(r.value) == 1 && TreeHeight(r.value) == 0
  {
    if Starts(s, TRUE) {
      assert s == TRUE + s[4..];
    } else if Starts(s, FALSE) {
      assert s == FALSE + s[5..];
    } else if Starts(s, NULL) {
      assert s == NULL + s[4..];
    } else {
      NumberSound(s);
    }
  }

  lemma {:induction false} ValueSound(s: Text, depth: nat, nodes: nat, cfg: Config)
    requires ParseValue(s, depth, nodes, cfg).Ok?
    ensures var r := ParseValue(s, depth, nodes, cfg);
      && Wf(r.value) && s == Spell(r.value, r.rest)
      && r.nodes == nodes + TreeCount(r.value) <= cfg.maxNodes
      && depth + TreeHeight(r.value) <= cfg.maxDepth
    decreases |s|, 1
  {
    Uncons(s);
    if s[0] == QUOTE {
      ElemsSound(s[1..]);
    } else if s[0] == OPEN_OBJECT {
      ObjectSound(s[1..], depth, nodes + 1, cfg);
    } else if s[0] == OPEN_ARRAY {
      ArraySound(s[1..], depth, nodes + 1, cfg);
    } else {
      ScalarSound(s, nodes + 1, cfg);
    }
  }

  lemma {:induction false} ArraySound(s: Text, depth: nat, nodes: nat, cfg: Config)
    requires ParseArray(s, depth, nodes, cfg).Ok? && 1 <= nodes <= cfg.maxNodes && depth <= cfg.maxDepth
    ensures var r := ParseArray(s, depth, nodes, cfg);
      && Wf(r.value) && [OPEN_ARRAY] + s == Spell(r.value, r.rest)
      && r.nodes == nodes - 1 + TreeCount(r.value) <= cfg.maxNodes
      && depth + TreeHeight(r.value) <= cfg.maxDepth
    decreases |s|, 3
  {
    GapSound(s);
    var u := SkipGap(s);
    if At(u, CLOSE_ARRAY) {
      Uncons(u);
    } else {
      ItemsSound(Gap(s), u, depth, nodes, cfg);
    }
  }

  lemma {:induction false} ObjectSound(s: Text, depth: nat, nodes: nat, cfg: Config)
    requires ParseObject(s, depth, nodes, cfg).Ok? && 1 <= nodes <= cfg.maxNodes && depth <= cfg.maxDepth
    ensures var r := ParseObject(s, depth, nodes, cfg);
      && Wf(r.value) && [OPEN_OBJECT] + s == Spell(r.value, r.rest)
      && r.nodes == nodes - 1 + TreeCount(r.value) <= cfg.maxNodes
      && depth + TreeHeight(r.value) <= cfg.maxDepth
    decreases |s|, 3
  {
    GapSound(s);
    var u := SkipGap(s);
    if At(u, CLOSE_OBJECT) {
      Uncons(u);
    } else {
      PairsSound(Gap(s), u, depth, nodes, cfg, {});
    }
  }

  lemma {:induction false} ItemsSound(gap: Text, s: Text, depth: nat, nodes: nat, cfg: Config)
    requires Blanks(gap) && ParseItems(gap, s, depth, nodes, cfg).Ok?
    ensures var r := ParseItems(gap, s, depth, nodes, cfg);
      && r.value != [] && WfItems(r.value) && gap + s == SpellItems(r.value, r.rest)
      && r.nodes == nodes + TreeItemsCount(r.value) <= cfg.maxNodes
      && depth + TreeItemsHeight(r.value) <= cfg.maxDepth
    decreases |s|, 2
  {
    var r := ParseItems(gap, s, depth, nodes, cfg);
    ValueSound(s, depth + 1, nodes, cfg);
    var v := ParseValue(s, depth + 1, nodes, cfg);
    GapSound(v.rest);
    var w := SkipGap(v.rest);
    Uncons(w);
    if At(w, COMMA) {
      var x := w[1..];
      GapSound(x);
      ItemsSound(Gap(x), SkipGap(x), depth, v.nodes, cfg);
      assert r.value[1..] == ParseItems(Gap(x), SkipGap(x), depth, v.nodes, cfg).value;
    }
  }

  lemma NameSound(gap: Text, s: Text, cfg: Config, seen: set<Text>)
    requires ParseName(gap, s, cfg, seen).Ok?
    ensures var r := ParseName(gap, s, cfg, seen); var p := r.value;
      && p.before == gap && WfElems(p.key) && Blanks(p.left) && Blanks(p.right) && s == SpellName(p, r.rest)
  {
    Uncons(s);
    ElemsSound(s[1..]);
    var u := ParseQuoted(s[1..], cfg).rest;
    GapSound(u);
    var w := SkipGap(u);
    Uncons(w);
    GapSound(w[1..]);
  }

  lemma {:induction false} PairsSound(gap: Text, s: Text, depth: nat, nodes: nat, cfg: Config, seen: set<Text>)
    requires Blanks(gap) && ParsePairs(gap, s, depth, nodes, cfg, seen).Ok?
    ensures var r := ParsePairs(gap, s, depth, nodes, cfg, seen);
      && r.value != [] && WfPairs(r.value) && gap + s == SpellPairs(r.value, r.rest)
      && r.nodes == nodes + TreePairsCount(r.value) <= cfg.maxNodes
      && depth + TreePairsHeight(r.value) <= cfg.maxDepth
    decreases |s|, 2
  {
    var r := ParsePairs(gap, s, depth, nodes, cfg, seen);
    NameSound(gap, s, cfg, seen);
    var name := ParseName(gap, s, cfg, seen);
    ValueSound(name.rest, depth + 1, nodes, cfg);
    var v := ParseValue(name.rest, depth + 1, nodes, cfg);
    GapSound(v.rest);
    var w := SkipGap(v.rest);
    Uncons(w);
    if At(w, COMMA) {
      var x := w[1..];
      var more := seen + {Codes(name.value.key)};
      GapSound(x);
      PairsSound(Gap(x), SkipGap(x), depth, v.nodes, cfg, more);
      assert r.value[1..] == ParsePairs(Gap(x), SkipGap(x), depth, v.nodes, cfg, more).value;
    }
  }

  // A parsed text is the spelling of the tree returned, within the limits.
  lemma DocumentSound(s: Text, cfg: Config)
    requires ParseDocument(s, cfg).Ok?
    ensures var r := ParseDocument(s, cfg);
      && WfItem(r.value) && s == SpellDocument(r.value)
      && r.nodes == TreeCount(r.value.value) <= cfg.maxNodes && TreeHeight(r.value.value) <= cfg.maxDepth
  {
    GapSound(s);
    ValueSound(SkipGap(s), 0, 0, cfg);
    var u := ParseValue(SkipGap(s), 0, 0, cfg).rest;
    GapSound(u);
    assert Gap(u) + [] == Gap(u);
  }

  /******* Completeness *******/

  lemma SpellStart(t: Tree, rest: Text)
    requires Wf(t)
    ensures var s := Spell(t, rest);
      s != [] && !Blank(s[0]) && s[0] != CLOSE_ARRAY && s[0] != CLOSE_OBJECT && s[0] != COMMA
  {
    if t.Digits? && !t.n.minus {
      assert Spell(t, rest)[0] == t.n.whole[0];
    }
  }

  lemma ScalarComplete(t: Tree, rest: Text, nodes: nat, cfg: Config)
    requires Wf(t) && (t.Word? || t.Digits?) && Stop(rest) && cfg.policy.Lenient?
    ensures var s := Spell(t, rest);
      && ParseScalar(s, nodes, cfg) == Ok(t, rest, nodes)
      && s != [] && s[0] != QUOTE && s[0] != OPEN_ARRAY && s[0] != OPEN_OBJECT
  {
    var s := Spell(t, rest);
    if t.Word? {
      hide ParseNumber;
      WordComplete(t.v, rest);
    } else {
      hide ParseNumber, SpellNumber, WfNumber;
      NumberComplete(t.n, rest);
      NoWord(s);
    }
  }

  lemma WordComplete(v: Json, rest: Text)
    requires v.Null? || v.Bool?
    ensures var s, w := SpellWord(v) + rest, SpellWord(v);
      && Starts(s, w) && s[|w|..] == rest && s[0] == w[0]
      && (v != Bool(true) ==> !Starts(s, TRUE)) && (v == Null ==> !Starts(s, FALSE))
  {
    var s, w := SpellWord(v) + rest, SpellWord(v);
    assert s[..|w|] == w && s[0] == w[0];
    assert |s| >= 4 ==> s[..4][0] == s[0];
    assert |s| >= 5 ==> s[..5][0] == s[0];
    assert TRUE[0] == 0x74 && FALSE[0] == 0x66 && NULL[0] == 0x6E;
  }

  lemma NoWord(s: Text)
    requires s != [] && (s[0] == MINUS || Digit(s[0]))
    ensures !Starts(s, TRUE) && !Starts(s, FALSE) && !Starts(s, NULL)
  {
    assert |s| >= 4 ==> s[..4][0] == s[0];
    assert |s| >= 5 ==> s[..5][0] == s[0];
    assert TRUE[0] == 0x74 && FALSE[0] == 0x66 && NULL[0] == 0x6E;
  }

  lemma EmptyComplete(gap: Text, rest: Text, depth: nat, nodes: nat, cfg: Config)
    requires Blanks(gap)
    ensures ParseArray(gap + ([CLOSE_ARRAY] + rest), depth, nodes, cfg) == Ok(EmptyArray(gap), rest, nodes)
    ensures ParseObject(gap + ([CLOSE_OBJECT] + rest), depth, nodes, cfg) == Ok(EmptyObject(gap), rest, nodes)
  {
    GapExact(gap, [CLOSE_ARRAY] + rest);
    GapExact(gap, [CLOSE_OBJECT] + rest);
    Cons(CLOSE_ARRAY, rest);
    Cons(CLOSE_OBJECT, rest);
  }

  lemma {:induction false} ValueComplete(t: Tree, rest: Text, depth: nat, nodes: nat, cfg: Config)
    requires Wf(t) && Stop(rest) && cfg.policy.Lenient?
    requires depth + TreeHeight(t) <= cfg.maxDepth && nodes + TreeCount(t) <= cfg.maxNodes
    ensures ParseValue(Spell(t, rest), depth, nodes, cfg) == Ok(t, rest, nodes + TreeCount(t))
    decreases t, 1
  {
    hide ParseItems, ParsePairs, ParseScalar, ParseElems, SpellElems, SpellItems, SpellPairs, SpellNumber, Gap, SkipGap;
    match t
    case Quoted(elems) =>
      Cons(QUOTE, SpellElems(elems, rest));
      ElemsComplete(elems, rest);
    case EmptyArray(gap) =>
      EmptyComplete(gap, rest, depth, nodes + 1, cfg);
      Cons(OPEN_ARRAY, gap + ([CLOSE_ARRAY] + rest));
    case EmptyObject(gap) =>
      EmptyComplete(gap, rest, depth, nodes + 1, cfg);
      Cons(OPEN_OBJECT, gap + ([CLOSE_OBJECT] + rest));
    case Array(items) =>
      Cons(OPEN_ARRAY, SpellItems(items, rest));
      ItemsStart(items, rest);
      ItemsComplete(items, rest, depth, nodes + 1, cfg);
    case Object(pairs) =>
      Cons(OPEN_OBJECT, SpellPairs(pairs, rest));
      PairsStart(pairs, rest);
      PairsComplete(pairs, rest, depth, nodes + 1, cfg, {});
    case _ =>
      ScalarComplete(t, rest, nodes + 1, cfg);
  }

  // The first item of an array, once its value has been parsed.
  lemma ItemsUnfold(i: Item, x: Text, w: Text, depth: nat, nodes: nat, n: nat, cfg: Config)
    requires Blanks(i.after) && w != [] && !Blank(w[0])
    requires ParseValue(x, depth + 1, nodes, cfg) == Ok(i.value, i.after + w, n)
    ensures ParseItems(i.before, x, depth, nodes, cfg) ==
      if w[0] == CLOSE_ARRAY then Ok([i], w[1..], n)
      else if w[0] == COMMA then PushItem(i, ParseItems(Gap(w[1..]), SkipGap(w[1..]), depth, n, cfg))
      else Bad
  {
    GapExact(i.after, w);
  }

  // The items of an array without the white space that opens them.
  ghost function ItemsBody(items: seq<Item>, rest: Text): Text
    requires items != []
  {
    Spell(items[0].value, items[0].after + ItemsEnd(items, rest))
  }

  ghost function ItemsEnd(items: seq<Item>, rest: Text): Text
    requires items != []
  {
    if |items| == 1 then [CLOSE_ARRAY] + rest else [COMMA] + SpellItems(items[1..], rest)
  }

  lemma ItemsStart(items: seq<Item>, rest: Text)
    requires items != [] && Blanks(items[0].before) && Wf(items[0].value)
    ensures var s := SpellItems(items, rest);
      && Gap(s) == items[0].before && SkipGap(s) == ItemsBody(items, rest)
      && !At(ItemsBody(items, rest), CLOSE_ARRAY)
  {
    SpellStart(items[0].value, items[0].after + ItemsEnd(items, rest));
    GapExact(items[0].before, ItemsBody(items, rest));
  }

  lemma {:induction false} ItemsComplete(items: seq<Item>, rest: Text, depth: nat, nodes: nat, cfg: Config)
    requires items != [] && WfItems(items) && cfg.policy.Lenient?
    requires depth + TreeItemsHeight(items) <= cfg.maxDepth && nodes + TreeItemsCount(items) <= cfg.maxNodes
    ensures ParseItems(items[0].before, ItemsBody(items, rest), depth, nodes, cfg) ==
            Ok(items, rest, nodes + TreeItemsCount(items))
    decreases items, 0
  {
    hide ParseValue, ParseItems, Spell, Gap, SkipGap;
    var i, n, w := items[0], nodes + TreeCount(items[0].value), ItemsEnd(items, rest);
    StopAfterGap(i.after, w);
    ValueComplete(i.value, i.after + w, depth + 1, nodes, cfg);
    ItemsUnfold(i, Spell(i.value, i.after + w), w, depth, nodes, n, cfg);
    if |items| == 1 {
      Cons(CLOSE_ARRAY, rest);
      assert items == [i];
    } else {
      Cons(COMMA, SpellItems(items[1..], rest));
      ItemsStart(items[1..], rest);
      ItemsComplete(items[1..], rest, depth, n, cfg);
      assert [i] + items[1..] == items;
    }
  }

  lemma StopAfterGap(gap: Text, w: Text)
    requires Blanks(gap) && Stop(w)
    ensures Stop(gap + w)
  {
    if gap == [] {
      assert gap + w == w;
    } else {
      assert (gap + w)[0] == gap[0];
    }
  }

  lemma NameComplete(p: Pair, x: Text, cfg: Config, seen: set<Text>)
    requires WfElems(p.key) && Blanks(p.left) && Blanks(p.right) && (x != [] ==> !Blank(x[0])) && cfg.policy.Lenient?
    ensures ParseName(p.before, SpellName(p, x), cfg, seen) == Ok(p.(value := Word(Null), after := []), x, 0)
  {
    var w := [COLON] + (p.right + x);
    Cons(QUOTE, SpellElems(p.key, p.left + w));
    ElemsComplete(p.key, p.left + w);
    Cons(COLON, p.right + x);
    GapExact(p.left, w);
    GapExact(p.right, x);
  }

  // The first member of an object, once its name and its value have been parsed.
  lemma PairsUnfold(p: Pair, x: Text, w: Text, depth: nat, nodes: nat, n: nat, cfg: Config, seen: set<Text>)
    requires WfElems(p.key) && Blanks(p.left) && Blanks(p.right) && Blanks(p.after) && cfg.policy.Lenient?
    requires x != [] && !Blank(x[0]) && w != [] && !Blank(w[0])
    requires ParseValue(x, depth + 1, nodes, cfg) == Ok(p.value, p.after + w, n)
    ensures ParsePairs(p.before, SpellName(p, x), depth, nodes, cfg, seen) ==
      if w[0] == CLOSE_OBJECT then Ok([p], w[1..], n)
      else if w[0] == COMMA then
        PushPair(p, ParsePairs(Gap(w[1..]), SkipGap(w[1..]), depth, n, cfg, seen + {Codes(p.key)}))
      else Bad
  {
    NameComplete(p, x, cfg, seen);
    GapExact(p.after, w);
  }

  // The members of an object without the white space that opens them.
  ghost function PairsBody(pairs: seq<Pair>, rest: Text): Text
    requires pairs != []
  {
    SpellName(pairs[0], Spell(pairs[0].value, pairs[0].after + PairsEnd(pairs, rest)))
  }

  ghost function PairsEnd(pairs: seq<Pair>, rest: Text): Text
    requires pairs != []
  {
    if |pairs| == 1 then [CLOSE_OBJECT] + rest else [COMMA] + SpellPairs(pairs[1..], rest)
  }

  lemma PairsStart(pairs: seq<Pair>, rest: Text)
    requires pairs != [] && Blanks(pairs[0].before)
    ensures var s := SpellPairs(pairs, rest);
      && Gap(s) == pairs[0].before && SkipGap(s) == PairsBody(pairs, rest)
      && !At(PairsBody(pairs, rest), CLOSE_OBJECT)
  {
    NameAfterGap(pairs[0], Spell(pairs[0].value, pairs[0].after + PairsEnd(pairs, rest)));
  }

  lemma {:induction false} PairsComplete(
    pairs: seq<Pair>, rest: Text, depth: nat, nodes: nat, cfg: Config, seen: set<Text>)
    requires pairs != [] && WfPairs(pairs) && cfg.policy.Lenient?
    requires depth + TreePairsHeight(pairs) <= cfg.maxDepth && nodes + TreePairsCount(pairs) <= cfg.maxNodes
    ensures ParsePairs(pairs[0].before, PairsBody(pairs, rest), depth, nodes, cfg, seen) ==
            Ok(pairs, rest, nodes + TreePairsCount(pairs))
    decreases pairs, 0
  {
    hide ParseValue, ParsePairs, Spell, SpellName, SpellElems, Gap, SkipGap, Codes;
    var p, n, w := pairs[0], nodes + TreeCount(pairs[0].value), PairsEnd(pairs, rest);
    StopAfterGap(p.after, w);
    ValueComplete(p.value, p.after + w, depth + 1, nodes, cfg);
    SpellStart(p.value, p.after + w);
    PairsUnfold(p, Spell(p.value, p.after + w), w, depth, nodes, n, cfg, seen);
    if |pairs| == 1 {
      Cons(CLOSE_OBJECT, rest);
      assert pairs == [p];
    } else {
      Cons(COMMA, SpellPairs(pairs[1..], rest));
      PairsStart(pairs[1..], rest);
      PairsComplete(pairs[1..], rest, depth, n, cfg, seen + {Codes(p.key)});
      assert [p] + pairs[1..] == pairs;
    }
  }

  lemma NameAfterGap(p: Pair, x: Text)
    requires Blanks(p.before)
    ensures var s := p.before + SpellName(p, x);
      Gap(s) == p.before && SkipGap(s) == SpellName(p, x) && !At(SpellName(p, x), CLOSE_OBJECT)
  {
    GapExact(p.before, SpellName(p, x));
  }

  // Every spelling within the limits is parsed back to its own tree.
  lemma DocumentComplete(d: Item, cfg: Config)
    requires WfItem(d) && cfg.policy.Lenient?
    requires TreeHeight(d.value) <= cfg.maxDepth && TreeCount(d.value) <= cfg.maxNodes
    ensures ParseDocument(SpellDocument(d), cfg) == Ok(d, [], TreeCount(d.value))
  {
    SpellStart(d.value, d.after);
    GapExact(d.before, Spell(d.value, d.after));
    ValueComplete(d.value, d.after, 0, 0, cfg);
    GapExact(d.after, []);
    assert d.after + [] == d.after;
  }

  // The grammar is unambiguous: a text is the spelling of at most one document.
  lemma Unambiguous(d: Item, e: Item)
    requires WfItem(d) && WfItem(e) && SpellDocument(d) == SpellDocument(e)
    ensures d == e
  {
    var cfg := Config(Max(TreeHeight(d.value), TreeHeight(e.value)), Max(TreeCount(d.value), TreeCount(e.value)), Lenient);
    DocumentComplete(d, cfg);
    DocumentComplete(e, cfg);
  }
}
