/**
 The grammar of JSON texts (sections 2 to 7 of RFC 8259) as syntax trees with a spelling,
 and a recursive-descent parser that builds the tree of a text.

 `Spell` is the grammar: a text is a document exactly when it is the spelling of a
 well-formed tree.  `ParseDocument` is the specification of the two hand-written readers.
 */
module JsonSyntax {
  import opened Unicode
  import opened JsonValues

  const QUOTE := 0x22
  const BACKSLASH := 0x5C
  const COMMA := 0x2C
  const COLON := 0x3A
  const OPEN_ARRAY := 0x5B
  const CLOSE_ARRAY := 0x5D
  const OPEN_OBJECT := 0x7B
  const CLOSE_OBJECT := 0x7D
  const MINUS := 0x2D
  const PLUS := 0x2B
  const POINT := 0x2E
  const TRUE: Text := [0x74, 0x72, 0x75, 0x65]
  const FALSE: Text := [0x66, 0x61, 0x6C, 0x73, 0x65]
  const NULL: Text := [0x6E, 0x75, 0x6C, 0x6C]

  predicate Blank(c: int) { c == 0x20 || c == 0x09 || c == 0x0A || c == 0x0D }
  predicate Digit(c: int) { 0x30 <= c <= 0x39 }
  predicate HexDigit(c: int) { Digit(c) || 0x41 <= c <= 0x46 || 0x61 <= c <= 0x66 }

  /******* Trees *******/

  // One element between the quotes of a string: a literal code, a two-character escape, or \uXXXX.
  datatype Elem = Raw(c: int) | Short(mark: int) | Hex(d0: int, d1: int, d2: int, d3: int)

  datatype Tree =
    | Word(v: Json)
    | Digits(n: Number)
    | Quoted(elems: seq<Elem>)
    | EmptyArray(gap: Text)
    | Array(items: seq<Item>)
    | EmptyObject(gap: Text)
    | Object(pairs: seq<Pair>)

  // A value with the white space around it; a document is an item too.
  datatype Item = Item(before: Text, value: Tree, after: Text)

  datatype Pair = Pair(before: Text, key: seq<Elem>, left: Text, right: Text, value: Tree, after: Text)

  predicate ShortMark(c: int) {
    c == QUOTE || c == BACKSLASH || c == 0x2F || c == 0x62 || c == 0x66 || c == 0x6E || c == 0x72 || c == 0x74
  }

  // White space and digit runs.
  ghost predicate Blanks(s: Text) { forall i :: 0 <= i < |s| ==> Blank(s[i]) }
  ghost predicate AllDigits(s: Text) { forall i :: 0 <= i < |s| ==> Digit(s[i]) }

  ghost predicate WfElem(e: Elem) {
    match e
    case Raw(c) => c >= 0x20 && c != QUOTE && c != BACKSLASH
    case Short(m) => ShortMark(m)
    case Hex(a, b, c, d) => HexDigit(a) && HexDigit(b) && HexDigit(c) && HexDigit(d)
  }

  ghost predicate WfElems(elems: seq<Elem>) { forall i :: 0 <= i < |elems| ==> WfElem(elems[i]) }

  ghost predicate WfNumber(n: Number) {
    && AllDigits(n.whole) && n.whole != [] && (n.whole[0] == 0x30 ==> |n.whole| == 1)
    && AllDigits(n.fraction)
    && match n.exponent
       case NoExponent => true
       case Exponent(mark, sign, digits) =>
         && (mark == 0x65 || mark == 0x45)
         && (sign == [] || sign == [PLUS] || sign == [MINUS])
         && AllDigits(digits) && digits != []
  }

  ghost predicate Wf(t: Tree)
    decreases t, 1
  {
    match t
    case Word(v) => v.Null? || v.Bool?
    case Digits(n) => WfNumber(n)
    case Quoted(elems) => WfElems(elems)
    case EmptyArray(gap) => Blanks(gap)
    case EmptyObject(gap) => Blanks(gap)
    case Array(items) => items != [] && WfItems(items)
    case Object(pairs) => pairs != [] && WfPairs(pairs)
  }

  ghost predicate WfItem(it: Item) { Blanks(it.before) && Wf(it.value) && Blanks(it.after) }

  ghost predicate WfItems(items: seq<Item>)
    decreases items, 0
  {
    items == [] ||
    (Blanks(items[0].before) && Wf(items[0].value) && Blanks(items[0].after) && WfItems(items[1..]))
  }

  ghost predicate WfPairs(pairs: seq<Pair>)
    decreases pairs, 0
  {
    pairs == [] ||
    (&& Blanks(pairs[0].before) && WfElems(pairs[0].key) && Blanks(pairs[0].left) && Blanks(pairs[0].right)
     && Wf(pairs[0].value) && Blanks(pairs[0].after) && WfPairs(pairs[1..]))
  }

  /******* Spelling *******/

  // Each spelling is followed by `rest`, so that spellings nest without regrouping.

  function SpellElem(e: Elem, rest: Text): Text {
    match e
    case Raw(c) => [c] + rest
    case Short(m) => [BACKSLASH, m] + rest
    case Hex(a, b, c, d) => [BACKSLASH, 0x75, a, b, c, d] + rest
  }

  // The elements of a string and its closing quote.
  function SpellElems(elems: seq<Elem>, rest: Text): Text {
    if elems == [] then [QUOTE] + rest else SpellElem(elems[0], SpellElems(elems[1..], rest))
  }

  function SpellFraction(f: Text, rest: Text): Text { if f == [] then rest else [POINT] + (f + rest) }

  function SpellExponent(e: Exponent, rest: Text): Text {
    match e
    case NoExponent => rest
    case Exponent(mark, sign, digits) => [mark] + (sign + (digits + rest))
  }

  function SpellNumber(n: Number, rest: Text): Text {
    var unsigned := n.whole + SpellFraction(n.fraction, SpellExponent(n.exponent, rest));
    if n.minus then [MINUS] + unsigned else unsigned
  }

  function SpellWord(v: Json): Text {
    match v
    case Bool(b) => if b then TRUE else FALSE
    case _ => NULL
  }

  function Spell(t: Tree, rest: Text): Text
    decreases t, 1
  {
    match t
    case Word(v) => SpellWord(v) + rest
    case Digits(n) => SpellNumber(n, rest)
    case Quoted(elems) => [QUOTE] + SpellElems(elems, rest)
    case EmptyArray(gap) => [OPEN_ARRAY] + (gap + ([CLOSE_ARRAY] + rest))
    case EmptyObject(gap) => [OPEN_OBJECT] + (gap + ([CLOSE_OBJECT] + rest))
    case Array(items) => [OPEN_ARRAY] + SpellItems(items, rest)
    case Object(pairs) => [OPEN_OBJECT] + SpellPairs(pairs, rest)
  }

  // Items separated by commas, with the closing bracket.
  function SpellItems(items: seq<Item>, rest: Text): Text
    decreases items, 0
  {
    if items == [] then rest
    else
      var i := items[0];
      i.before + Spell(i.value, i.after +
        (if |items| == 1 then [CLOSE_ARRAY] + rest else [COMMA] + SpellItems(items[1..], rest)))
  }

  function SpellPairs(pairs: seq<Pair>, rest: Text): Text
    decreases pairs, 0
  {
    if pairs == [] then rest
    else
      var p := pairs[0];
      p.before + SpellName(p, Spell(p.value, p.after +
        (if |pairs| == 1 then [CLOSE_OBJECT] + rest else [COMMA] + SpellPairs(pairs[1..], rest))))
  }

  function SpellName(p: Pair, rest: Text): Text {
    [QUOTE] + SpellElems(p.key, p.left + ([COLON] + (p.right + rest)))
  }

  function SpellDocument(d: Item): Text { d.before + Spell(d.value, d.after) }

  /******* How a number is spelled *******/

  // Printable ASCII.
  ghost predicate Plain(s: Text) { forall i :: 0 <= i < |s| ==> 0x20 <= s[i] <= 0x7E }

  lemma NumberPlain(n: Number, rest: Text)
    requires WfNumber(n) && Plain(rest)
    ensures Plain(SpellNumber(n, rest))
  {
    var w := SpellExponent(n.exponent, rest);
    assert Plain(w);
    assert Plain(SpellFraction(n.fraction, w));
  }

  lemma NumberAppend(n: Number, rest: Text, more: Text)
    ensures SpellNumber(n, rest + more) == SpellNumber(n, rest) + more
  {
    var w := SpellExponent(n.exponent, rest);
    assert SpellExponent(n.exponent, rest + more) == w + more;
    assert SpellFraction(n.fraction, w + more) == SpellFraction(n.fraction, w) + more;
  }

  /******* Size of a tree *******/

  function TreeHeight(t: Tree): nat
    decreases t, 1
  {
    match t
    case Array(items) => TreeItemsHeight(items)
    case Object(pairs) => TreePairsHeight(pairs)
    case _ => 0
  }

  function TreeItemsHeight(items: seq<Item>): nat
    decreases items, 0
  {
    if items == [] then 0 else Max(1 + TreeHeight(items[0].value), TreeItemsHeight(items[1..]))
  }

  function TreePairsHeight(pairs: seq<Pair>): nat
    decreases pairs, 0
  {
    if pairs == [] then 0 else Max(1 + TreeHeight(pairs[0].value), TreePairsHeight(pairs[1..]))
  }

  function TreeCount(t: Tree): nat
    decreases t, 1
  {
    match t
    case Array(items) => 1 + TreeItemsCount(items)
    case Object(pairs) => 1 + TreePairsCount(pairs)
    case _ => 1
  }

  function TreeItemsCount(items: seq<Item>): nat
    decreases items, 0
  {
    if items == [] then 0 else TreeCount(items[0].value) + TreeItemsCount(items[1..])
  }

  function TreePairsCount(pairs: seq<Pair>): nat
    decreases pairs, 0
  {
    if pairs == [] then 0 else TreeCount(pairs[0].value) + TreePairsCount(pairs[1..])
  }

  /******* What an element stands for *******/

  function HexValue(c: int): int {
    if Digit(c) then c - 0x30 else if 0x41 <= c <= 0x46 then c - 0x41 + 10 else c - 0x61 + 10
  }

  function ShortCode(mark: int): int {
    if mark == 0x62 then 0x08 else if mark == 0x66 then 0x0C else if mark == 0x6E then 0x0A
    else if mark == 0x72 then 0x0D else if mark == 0x74 then 0x09 else mark
  }

  function Code(e: Elem): int {
    match e
    case Raw(c) => c
    case Short(m) => ShortCode(m)
    case Hex(a, b, c, d) => ((HexValue(a) * 16 + HexValue(b)) * 16 + HexValue(c)) * 16 + HexValue(d)
  }

  // One code per element: the string as the TypeScript reader assembles it.
  function Codes(elems: seq<Elem>): Text {
    if elems == [] then [] else [Code(elems[0])] + Codes(elems[1..])
  }

  // Surrogates come in pairs, and both halves are written the same way.
  predicate Paired(elems: seq<Elem>) {
    if elems == [] then true
    else if High(Code(elems[0])) then
      && |elems| > 1 && Low(Code(elems[1])) && elems[0].Hex? == elems[1].Hex?
      && Paired(elems[2..])
    else !Low(Code(elems[0])) && Paired(elems[1..])
  }

  /******* The parser *******/

  datatype Parsed<T> = Ok(value: T, rest: Text, nodes: nat) | Bad

  datatype Outcome<T> = Yes(value: T) | No

  // What a reader refuses besides ungrammatical texts.
  datatype Policy = Lenient | Strict(admits: Number -> bool)

  datatype Config = Config(maxDepth: nat, maxNodes: nat, policy: Policy)

  // A text split after its leading white space, and after its leading digits.
  function Gap(s: Text): Text {
    if s != [] && Blank(s[0]) then [s[0]] + Gap(s[1..]) else []
  }

  function SkipGap(s: Text): (r: Text)
    ensures |r| <= |s|
  {
    if s != [] && Blank(s[0]) then SkipGap(s[1..]) else s
  }

  function Run(s: Text): Text {
    if s != [] && Digit(s[0]) then [s[0]] + Run(s[1..]) else []
  }

  function SkipRun(s: Text): (r: Text)
    ensures |r| <= |s|
  {
    if s != [] && Digit(s[0]) then SkipRun(s[1..]) else s
  }

  predicate At(s: Text, c: int) { s != [] && s[0] == c }

  function ParseElem(s: Text): (r: Parsed<Elem>)
    ensures r.Ok? ==> |r.rest| < |s|
  {
    if s == [] then Bad
    else if s[0] == BACKSLASH then
      if |s| < 2 then Bad
      else if s[1] == 0x75 then
        if |s| >= 6 && HexDigit(s[2]) && HexDigit(s[3]) && HexDigit(s[4]) && HexDigit(s[5]) then
          Ok(Hex(s[2], s[3], s[4], s[5]), s[6..], 0)
        else Bad
      else if ShortMark(s[1]) then Ok(Short(s[1]), s[2..], 0)
      else Bad
    else if s[0] < 0x20 then Bad
    else Ok(Raw(s[0]), s[1..], 0)
  }

  // The elements up to the closing quote, whatever their surrogates.
  function ParseElems(s: Text): (r: Parsed<seq<Elem>>)
    ensures r.Ok? ==> |r.rest| < |s|
    decreases |s|
  {
    if At(s, QUOTE) then Ok([], s[1..], 0)
    else
      match ParseElem(s)
      case Bad => Bad
      case Ok(e, u, _) => PushElem(e, ParseElems(u))
  }

  function PushElem(e: Elem, r: Parsed<seq<Elem>>): Parsed<seq<Elem>> {
    match r
    case Bad => Bad
    case Ok(es, rest, n) => Ok([e] + es, rest, n)
  }

  function ParseQuoted(s: Text, cfg: Config): (r: Parsed<seq<Elem>>)
    ensures r.Ok? ==> |r.rest| < |s|
  {
    var r := ParseElems(s);
    if r.Ok? && cfg.policy.Strict? && !Paired(r.value) then Bad else r
  }

  function ParseExponent(s: Text): (r: Parsed<Exponent>)
    ensures r.Ok? ==> |r.rest| <= |s|
  {
    if !At(s, 0x65) && !At(s, 0x45) then Ok(NoExponent, s, 0)
    else
      var signed := At(s[1..], PLUS) || At(s[1..], MINUS);
      var sign := if signed then [s[1]] else [];
      var u := if signed then s[1..][1..] else s[1..];
      if Run(u) == [] then Bad else Ok(Exponent(s[0], sign, Run(u)), SkipRun(u), 0)
  }

  function ParseFraction(s: Text): (r: Parsed<Text>)
    ensures r.Ok? ==> |r.rest| <= |s|
  {
    if !At(s, POINT) then Ok([], s, 0)
    else if Run(s[1..]) == [] then Bad
    else Ok(Run(s[1..]), SkipRun(s[1..]), 0)
  }

  function ParseWhole(s: Text): (r: Parsed<Text>)
    ensures r.Ok? ==> |r.rest| < |s|
  {
    if s == [] || !Digit(s[0]) || (s[0] == 0x30 && |s| > 1 && Digit(s[1])) then Bad
    else Ok(Run(s), SkipRun(s), 0)
  }

  function ParseUnsigned(minus: bool, s: Text): (r: Parsed<Number>)
    ensures r.Ok? ==> |r.rest| < |s|
  {
    match ParseWhole(s)
    case Bad => Bad
    case Ok(whole, u, _) =>
      match ParseFraction(u)
      case Bad => Bad
      case Ok(fraction, w, _) =>
        match ParseExponent(w)
        case Bad => Bad
        case Ok(exponent, rest, _) => Ok(Number(minus, whole, fraction, exponent), rest, 0)
  }

  function ParseNumber(s: Text): (r: Parsed<Number>)
    ensures r.Ok? ==> |r.rest| < |s|
  {
    if At(s, MINUS) then ParseUnsigned(true, s[1..]) else ParseUnsigned(false, s)
  }

  predicate Starts(s: Text, word: Text) { |word| <= |s| && s[..|word|] == word }

  function ParseScalar(s: Text, nodes: nat, cfg: Config): (r: Parsed<Tree>)
    ensures r.Ok? ==> |r.rest| < |s|
  {
    if Starts(s, TRUE) then Ok(Word(Bool(true)), s[4..], nodes)
    else if Starts(s, FALSE) then Ok(Word(Bool(false)), s[5..], nodes)
    else if Starts(s, NULL) then Ok(Word(Null), s[4..], nodes)
    else
      match ParseNumber(s)
      case Bad => Bad
      case Ok(n, rest, _) =>
        if cfg.policy.Strict? && !cfg.policy.admits(n) then Bad else Ok(Digits(n), rest, nodes)
  }

  function ParseValue(s: Text, depth: nat, nodes: nat, cfg: Config): (r: Parsed<Tree>)
    ensures r.Ok? ==> |r.rest| < |s|
    decreases |s|, 1
  {
    if depth > cfg.maxDepth || nodes + 1 > cfg.maxNodes || s == [] then Bad
    else if s[0] == QUOTE then
      match ParseQuoted(s[1..], cfg)
      case Bad => Bad
      case Ok(elems, rest, _) => Ok(Quoted(elems), rest, nodes + 1)
    else if s[0] == OPEN_OBJECT then ParseObject(s[1..], depth, nodes + 1, cfg)
    else if s[0] == OPEN_ARRAY then ParseArray(s[1..], depth, nodes + 1, cfg)
    else ParseScalar(s, nodes + 1, cfg)
  }

  function ParseArray(s: Text, depth: nat, nodes: nat, cfg: Config): (r: Parsed<Tree>)
    ensures r.Ok? ==> |r.rest| < |s|
    decreases |s|, 3
  {
    var u := SkipGap(s);
    if At(u, CLOSE_ARRAY) then Ok(EmptyArray(Gap(s)), u[1..], nodes)
    else
      match ParseItems(Gap(s), u, depth, nodes, cfg)
      case Bad => Bad
      case Ok(items, rest, n) => Ok(Array(items), rest, n)
  }

  function ParseObject(s: Text, depth: nat, nodes: nat, cfg: Config): (r: Parsed<Tree>)
    ensures r.Ok? ==> |r.rest| < |s|
    decreases |s|, 3
  {
    var u := SkipGap(s);
    if At(u, CLOSE_OBJECT) then Ok(EmptyObject(Gap(s)), u[1..], nodes)
    else
      match ParsePairs(Gap(s), u, depth, nodes, cfg, {})
      case Bad => Bad
      case Ok(pairs, rest, n) => Ok(Object(pairs), rest, n)
  }

  // Items after the white space `gap`, up to the closing bracket.
  function ParseItems(gap: Text, s: Text, depth: nat, nodes: nat, cfg: Config): (r: Parsed<seq<Item>>)
    ensures r.Ok? ==> |r.rest| < |s|
    decreases |s|, 2
  {
    match ParseValue(s, depth + 1, nodes, cfg)
    case Bad => Bad
    case Ok(t, u, n) =>
      var item, w := Item(gap, t, Gap(u)), SkipGap(u);
      if At(w, CLOSE_ARRAY) then Ok([item], w[1..], n)
      else if At(w, COMMA) then
        PushItem(item, ParseItems(Gap(w[1..]), SkipGap(w[1..]), depth, n, cfg))
      else Bad
  }

  function PushItem(item: Item, r: Parsed<seq<Item>>): Parsed<seq<Item>> {
    match r
    case Bad => Bad
    case Ok(items, rest, n) => Ok([item] + items, rest, n)
  }

  function PushPair(pair: Pair, r: Parsed<seq<Pair>>): Parsed<seq<Pair>> {
    match r
    case Bad => Bad
    case Ok(pairs, rest, n) => Ok([pair] + pairs, rest, n)
  }

  // A quoted name, the colon, and the white space between them: everything before a member's value.
  function ParseName(gap: Text, s: Text, cfg: Config, seen: set<Text>): (r: Parsed<Pair>)
    ensures r.Ok? ==> |r.rest| < |s|
  {
    if !At(s, QUOTE) then Bad
    else
      match ParseQuoted(s[1..], cfg)
      case Bad => Bad
      case Ok(key, u, _) =>
        if cfg.policy.Strict? && Codes(key) in seen then Bad
        else
          var w := SkipGap(u);
          if !At(w, COLON) then Bad
          else Ok(Pair(gap, key, Gap(u), Gap(w[1..]), Word(Null), []), SkipGap(w[1..]), 0)
  }

  function ParsePairs(gap: Text, s: Text, depth: nat, nodes: nat, cfg: Config, seen: set<Text>)
    : (r: Parsed<seq<Pair>>)
    ensures r.Ok? ==> |r.rest| < |s|
    decreases |s|, 2
  {
    match ParseName(gap, s, cfg, seen)
    case Bad => Bad
    case Ok(name, x, _) =>
      match ParseValue(x, depth + 1, nodes, cfg)
      case Bad => Bad
      case Ok(t, u, n) =>
        var pair, w := name.(value := t, after := Gap(u)), SkipGap(u);
        if At(w, CLOSE_OBJECT) then Ok([pair], w[1..], n)
        else if At(w, COMMA) then
          PushPair(pair, ParsePairs(Gap(w[1..]), SkipGap(w[1..]), depth, n, cfg, seen + {Codes(name.key)}))
        else Bad
  }

  // A whole text: white space, one value, white space, nothing more.
  function ParseDocument(s: Text, cfg: Config): Parsed<Item> {
    match ParseValue(SkipGap(s), 0, 0, cfg)
    case Bad => Bad
    case Ok(t, u, n) =>
      if SkipGap(u) == [] then Ok(Item(Gap(s), t, Gap(u)), [], n) else Bad
  }
}
