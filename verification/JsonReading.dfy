/**
 What the strict reader accepts and what it returns, in terms of the grammar.

 The reader checks surrogates, names and numbers while it parses; `StrictIsFilter` shows that
 this is the same as parsing first and checking the tree afterwards.
 */
module JsonReading {
  import opened Unicode
  import opened JsonValues
  import opened JsonSyntax
  import opened JsonGrammar

  const MAX_DEPTH: nat := 64
  const MAX_NODES: nat := 100_000

  /******* What a tree stands for *******/

  // A decoded string as code points: two adjacent escapes that form a surrogate pair are one point.
  function Points(elems: seq<Elem>): Text {
    if elems == [] then []
    else if JoinsNext(elems) then
      [Combine(Code(elems[0]), Code(elems[1]))] + Points(elems[2..])
    else [Code(elems[0])] + Points(elems[1..])
  }

  predicate JoinsNext(elems: seq<Elem>) {
    && |elems| > 1 && elems[0].Hex? && High(Code(elems[0]))
    && elems[1].Hex? && Low(Code(elems[1]))
  }

  datatype View = UnitView | PointView

  function StringOf(elems: seq<Elem>, view: View): Text {
    if view.UnitView? then Codes(elems) else Points(elems)
  }

  function Denote(t: Tree, view: View): Json
    decreases t, 1
  {
    match t
    case Word(v) => v
    case Digits(n) => Num(n)
    case Quoted(elems) => Str(StringOf(elems, view))
    case EmptyArray(_) => Arr([])
    case EmptyObject(_) => Obj([])
    case Array(items) => Arr(DenoteItems(items, view))
    case Object(pairs) => Obj(DenotePairs(pairs, view))
  }

  function DenoteItems(items: seq<Item>, view: View): seq<Json>
    decreases items, 0
  {
    if items == [] then [] else [Denote(items[0].value, view)] + DenoteItems(items[1..], view)
  }

  function DenotePairs(pairs: seq<Pair>, view: View): seq<Member>
    decreases pairs, 0
  {
    if pairs == [] then []
    else [Member(StringOf(pairs[0].key, view), Denote(pairs[0].value, view))] + DenotePairs(pairs[1..], view)
  }

  // A tree and its value have the same shape.
  lemma {:induction false} DenoteSize(t: Tree, view: View)
    requires Wf(t)
    ensures Height(Denote(t, view)) == TreeHeight(t) && Count(Denote(t, view)) == TreeCount(t)
    decreases t, 1
  {
    match t
    case Array(items) => DenoteItemsSize(items, view);
    case Object(pairs) => DenotePairsSize(pairs, view);
    case _ =>
  }

  lemma {:induction false} DenoteItemsSize(items: seq<Item>, view: View)
    requires WfItems(items)
    ensures var vs := DenoteItems(items, view);
      ItemsHeight(vs) == TreeItemsHeight(items) && ItemsCount(vs) == TreeItemsCount(items)
    decreases items, 0
  {
    if items != [] {
      DenoteSize(items[0].value, view);
      DenoteItemsSize(items[1..], view);
      assert DenoteItems(items, view)[1..] == DenoteItems(items[1..], view);
    }
  }

  lemma {:induction false} DenotePairsSize(pairs: seq<Pair>, view: View)
    requires WfPairs(pairs)
    ensures var ms := DenotePairs(pairs, view);
      MembersHeight(ms) == TreePairsHeight(pairs) && MembersCount(ms) == TreePairsCount(pairs)
    decreases pairs, 0
  {
    if pairs != [] {
      DenoteSize(pairs[0].value, view);
      DenotePairsSize(pairs[1..], view);
      assert DenotePairs(pairs, view)[1..] == DenotePairs(pairs[1..], view);
    }
  }

  /******* What the strict reader accepts *******/

  // Every string pairs its surrogates, every object has distinct names, every number is admitted.
  predicate Accepts(t: Tree, admits: Number -> bool)
    decreases t, 1
  {
    match t
    case Digits(n) => admits(n)
    case Quoted(elems) => Paired(elems)
    case Array(items) => AcceptsItems(items, admits)
    case Object(pairs) => AcceptsPairs(pairs, admits, {})
    case _ => true
  }

  predicate AcceptsItems(items: seq<Item>, admits: Number -> bool)
    decreases items, 0
  {
    items == [] || (Accepts(items[0].value, admits) && AcceptsItems(items[1..], admits))
  }

  predicate AcceptsPairs(pairs: seq<Pair>, admits: Number -> bool, seen: set<Text>)
    decreases pairs, 0
  {
    pairs == [] ||
    (&& Paired(pairs[0].key) && Codes(pairs[0].key) !in seen && Accepts(pairs[0].value, admits)
     && AcceptsPairs(pairs[1..], admits, seen + {Codes(pairs[0].key)}))
  }

  /******* Checking while parsing is checking afterwards *******/

  function Keep<T>(r: Parsed<T>, accepted: bool): Parsed<T> { if accepted then r else Bad }

  function Loose(cfg: Config): Config { cfg.(policy := Lenient) }

  lemma {:induction false} StrictIsFilter(s: Text, depth: nat, nodes: nat, cfg: Config)
    requires cfg.policy.Strict?
    ensures var r := ParseValue(s, depth, nodes, Loose(cfg));
      ParseValue(s, depth, nodes, cfg) == Keep(r, r.Ok? && Accepts(r.value, cfg.policy.admits))
    decreases |s|, 1
  {
    hide ParseItems, ParsePairs, ParseScalar;
    if depth > cfg.maxDepth || nodes + 1 > cfg.maxNodes || s == [] {
    } else if s[0] == OPEN_OBJECT {
      StrictPairs(Gap(s[1..]), SkipGap(s[1..]), depth, nodes + 1, cfg, {});
    } else if s[0] == OPEN_ARRAY {
      StrictItems(Gap(s[1..]), SkipGap(s[1..]), depth, nodes + 1, cfg);
    } else if s[0] != QUOTE {
      StrictScalar(s, nodes + 1, cfg);
    }
  }

  lemma StrictScalar(s: Text, nodes: nat, cfg: Config)
    requires cfg.policy.Strict?
    ensures var r := ParseScalar(s, nodes, Loose(cfg));
      ParseScalar(s, nodes, cfg) == Keep(r, r.Ok? && Accepts(r.value, cfg.policy.admits))
  {
    hide ParseNumber;
  }

  lemma {:induction false} StrictItems(gap: Text, s: Text, depth: nat, nodes: nat, cfg: Config)
    requires cfg.policy.Strict?
    ensures var r := ParseItems(gap, s, depth, nodes, Loose(cfg));
      ParseItems(gap, s, depth, nodes, cfg) == Keep(r, r.Ok? && AcceptsItems(r.value, cfg.policy.admits))
    decreases |s|, 2
  {
    hide ParseValue;
    StrictIsFilter(s, depth + 1, nodes, cfg);
    var v := ParseValue(s, depth + 1, nodes, Loose(cfg));
    if v.Ok? && At(SkipGap(v.rest), COMMA) {
      var x := SkipGap(v.rest)[1..];
      StrictItems(Gap(x), SkipGap(x), depth, v.nodes, cfg);
      var more := ParseItems(Gap(x), SkipGap(x), depth, v.nodes, Loose(cfg));
      if more.Ok? {
        assert ParseItems(gap, s, depth, nodes, Loose(cfg)).value[1..] == more.value;
      }
    }
  }

  lemma {:induction false} StrictPairs(
    gap: Text, s: Text, depth: nat, nodes: nat, cfg: Config, seen: set<Text>)
    requires cfg.policy.Strict?
    ensures var r := ParsePairs(gap, s, depth, nodes, Loose(cfg), seen);
      ParsePairs(gap, s, depth, nodes, cfg, seen) ==
      Keep(r, r.Ok? && AcceptsPairs(r.value, cfg.policy.admits, seen))
    decreases |s|, 2
  {
    hide ParseValue;
    var name := ParseName(gap, s, Loose(cfg), seen);
    if name.Ok? {
      StrictIsFilter(name.rest, depth + 1, nodes, cfg);
      var v := ParseValue(name.rest, depth + 1, nodes, Loose(cfg));
      if v.Ok? && At(SkipGap(v.rest), COMMA) {
        var x := SkipGap(v.rest)[1..];
        var seen' := seen + {Codes(name.value.key)};
        StrictPairs(Gap(x), SkipGap(x), depth, v.nodes, cfg, seen');
        var more := ParsePairs(Gap(x), SkipGap(x), depth, v.nodes, Loose(cfg), seen');
        if more.Ok? {
          assert ParsePairs(gap, s, depth, nodes, Loose(cfg), seen).value[1..] == more.value;
        }
      }
    }
  }

  /******* The strict reader *******/

  function StrictConfig(admits: Number -> bool): Config { Config(MAX_DEPTH, MAX_NODES, Strict(admits)) }

  const SCAN_CONFIG := Config(MAX_DEPTH, MAX_NODES, Lenient)

  function StrictRead(text: Text, admits: Number -> bool): Outcome<Json> {
    match ParseDocument(text, StrictConfig(admits))
    case Bad => No
    case Ok(d, _, _) => Yes(Denote(d.value, UnitView))
  }

  // The text derives v under the grammar, the restrictions and the limits.
  ghost predicate Derives(text: Text, d: Item, admits: Number -> bool, v: Json) {
    && WfItem(d) && text == SpellDocument(d) && v == Denote(d.value, UnitView)
    && Accepts(d.value, admits) && Height(v) <= MAX_DEPTH && Count(v) <= MAX_NODES
  }

  lemma StrictDocument(text: Text, admits: Number -> bool)
    ensures var r := ParseDocument(text, SCAN_CONFIG);
      ParseDocument(text, StrictConfig(admits)) == Keep(r, r.Ok? && Accepts(r.value.value, admits))
  {
    hide ParseValue;
    StrictIsFilter(SkipGap(text), 0, 0, StrictConfig(admits));
  }

  // The strict reader returns v exactly when the whole text derives v, and its node counter is the size of v.
  lemma StrictReadExact(text: Text, admits: Number -> bool, v: Json)
    ensures StrictRead(text, admits) == Yes(v) <==> exists d :: Derives(text, d, admits, v)
    ensures StrictRead(text, admits) == Yes(v) ==> ParseDocument(text, StrictConfig(admits)).nodes == Count(v)
  {
    hide ParseDocument, Denote, Accepts;
    StrictDocument(text, admits);
    if StrictRead(text, admits) == Yes(v) {
      DocumentSound(text, SCAN_CONFIG);
      var d := ParseDocument(text, SCAN_CONFIG).value;
      DenoteSize(d.value, UnitView);
      assert Derives(text, d, admits, v);
    }
    forall d | Derives(text, d, admits, v)
      ensures StrictRead(text, admits) == Yes(v)
    {
      DenoteSize(d.value, UnitView);
      DocumentComplete(d, SCAN_CONFIG);
    }
  }

  // An escape spells a code unit, and a short one no surrogate.
  lemma CodeRange(e: Elem)
    requires WfElem(e) && !e.Raw?
    ensures 0 <= Code(e) <= 0xFFFF && (e.Short? ==> !Surrogate(Code(e)))
  {
    if e.Hex? {
      assert 0 <= HexValue(e.d0) <= 15 && 0 <= HexValue(e.d1) <= 15;
      assert 0 <= HexValue(e.d2) <= 15 && 0 <= HexValue(e.d3) <= 15;
    }
  }
}
