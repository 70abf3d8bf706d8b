/**
 What the evaluator's tables of verdicts say, keyword by keyword, in the words of the JSON Schema 2020-12 core and
 validation vocabularies.
 */
module SchemaMeaning {
  import opened Basics
  import opened Unicode
  import opened JsonValues
  import opened Schemas
  import opened SchemaEval
  import opened ToolCompiler
  import opened ToolMeaning

  // Where an evaluation takes place.
  datatype Setting = Setting(atoms: Atoms, scope: Scope, bound: nat)

  ghost function Judged(c: Setting, s: Schema, v: Json): Verdict { Eval(c.atoms, c.scope, c.bound, s, v) }

  ghost predicate Accepts(c: Setting, s: Schema, v: Json) { Judged(c, s, v).Valid? }

  // The schema accepts the value and has evaluated the member.
  ghost predicate Sees(c: Setting, s: Schema, v: Json, key: Text) { Accepts(c, s, v) && key in Judged(c, s, v).evaluated }

  ghost predicate HasMember(inst: Json, key: Text) { exists m :: m in Members(inst) && m.key == key }

  function PatternsIn(aps: seq<Applicator>): seq<Named> {
    if aps == [] then []
    else if aps[0].Map? && aps[0].mapKind == PatternProperties then aps[0].entries
    else PatternsIn(aps[1..])
  }

  function PrefixLength(aps: seq<Applicator>): nat {
    if aps == [] then 0
    else if aps[0].List? && aps[0].listKind == PrefixItems then |aps[0].schemas|
    else PrefixLength(aps[1..])
  }

  // Neither "properties" nor "patternProperties" applies to the name.
  ghost predicate LeftOver(c: Setting, aps: seq<Applicator>, key: Text) {
    && (forall e :: e in FindEntries(aps) ==> e.name != key)
    && (forall e :: e in PatternsIn(aps) ==> !c.atoms.matches(e.name, key))
  }

  ghost predicate OnlyAccepts(c: Setting, ss: seq<Schema>, i: nat, inst: Json) {
    i < |ss| && Accepts(c, ss[i], inst) && forall j :: 0 <= j < |ss| && Accepts(c, ss[j], inst) ==> j == i
  }

  // The outcome of "if", when there is one.
  ghost predicate Condition(c: Setting, aps: seq<Applicator>, inst: Json, outcome: bool) {
    FindSchema(aps, If).Some? && Accepts(c, FindSchema(aps, If).value, inst) == outcome
  }

  // The instance obeys one keyword of a schema; "unevaluatedProperties" comes after all others.
  ghost predicate Obeys(c: Setting, n: Schema, a: Applicator, inst: Json)
    requires n.Node?
  {
    match a
    case Map(Defs, _) => true
    case Map(Properties, es) => forall e, m :: e in es && m in Members(inst) && m.key == e.name ==> Accepts(c, e.schema, m.value)
    case Map(PatternProperties, es) =>
      forall e, m :: e in es && m in Members(inst) && c.atoms.matches(e.name, m.key) ==> Accepts(c, e.schema, m.value)
    case Map(DependentSchemas, es) => forall e :: e in es && HasMember(inst, e.name) ==> Accepts(c, e.schema, inst)
    case List(AllOf, ss) => forall s :: s in ss ==> Accepts(c, s, inst)
    case List(AnyOf, ss) => exists s :: s in ss && Accepts(c, s, inst)
    case List(OneOf, ss) => exists i :: 0 <= i < |ss| && OnlyAccepts(c, ss, i, inst)
    case List(PrefixItems, ss) => forall i :: 0 <= i < |ss| && i < |Elements(inst)| ==> Accepts(c, ss[i], Elements(inst)[i])
    case Single(Additional, s) => forall m :: m in Members(inst) && LeftOver(c, n.applicators, m.key) ==> Accepts(c, s, m.value)
    case Single(PropertyNames, s) => forall m :: m in Members(inst) ==> Accepts(c, s, Str(m.key))
    case Single(Not, s) => !Accepts(c, s, inst)
    case Single(Then, s) => Condition(c, n.applicators, inst, true) ==> Accepts(c, s, inst)
    case Single(Else, s) => Condition(c, n.applicators, inst, false) ==> Accepts(c, s, inst)
    case Single(Items, s) => forall j :: PrefixLength(n.applicators) <= j < |Elements(inst)| ==> Accepts(c, s, Elements(inst)[j])
    case Single(Contains, s) => inst.Arr? ==> c.atoms.counts(n.assertions, |Holding(c, s, inst.items)|)
    case Single(Unevaluated, _) => true
    case Single(If, _) => true
  }

  // The positions of the elements that the schema accepts.
  ghost function Holding(c: Setting, s: Schema, items: seq<Json>): set<int> {
    set i | 0 <= i < |items| && Accepts(c, s, items[i])
  }

  // One keyword has evaluated the member.
  ghost predicate Covers(c: Setting, n: Schema, a: Applicator, inst: Json, key: Text)
    requires n.Node?
  {
    match a
    case Map(Properties, es) => HasMember(inst, key) && exists e :: e in es && e.name == key
    case Map(PatternProperties, es) => HasMember(inst, key) && exists e :: e in es && c.atoms.matches(e.name, key)
    case Map(DependentSchemas, es) => exists e :: e in es && HasMember(inst, e.name) && Sees(c, e.schema, inst, key)
    case Map(Defs, _) => false
    case List(PrefixItems, _) => false
    case List(_, ss) => exists s :: s in ss && Sees(c, s, inst, key)
    case Single(Additional, _) => HasMember(inst, key) && LeftOver(c, n.applicators, key)
    case Single(If, s) => Sees(c, s, inst, key)
    case Single(Then, s) => Condition(c, n.applicators, inst, true) && Sees(c, s, inst, key)
    case Single(Else, s) => Condition(c, n.applicators, inst, false) && Sees(c, s, inst, key)
    case _ => false
  }

  /******* Tables of verdicts *******/

  ghost function PartIn(c: Setting, a: Applicator, inst: Json): Part { PartOf(c.atoms, c.scope, c.bound, a, inst) }

  ghost function Row(c: Setting, s: Schema, probes: seq<Json>): seq<Verdict> { EvalEach(c.atoms, c.scope, c.bound, s, probes) }

  lemma RowMeans(c: Setting, s: Schema, probes: seq<Json>)
    ensures |Row(c, s, probes)| == |probes|
    ensures forall j :: 0 <= j < |probes| ==> Row(c, s, probes)[j] == Judged(c, s, probes[j])
  {
    hide Eval, EvalEach;
    forall j | 0 <= j < |probes| ensures Row(c, s, probes)[j] == Judged(c, s, probes[j]) {
      EachAt(c.atoms, c.scope, c.bound, s, probes, j);
    }
  }

  lemma {:induction false} ListAt(c: Setting, ss: seq<Schema>, probes: seq<Json>)
    ensures var rows := EvalList(c.atoms, c.scope, c.bound, ss, probes);
      |rows| == |ss| && forall i :: 0 <= i < |ss| ==> rows[i] == Row(c, ss[i], probes)
  {
    if ss != [] {
      hide EvalEach;
      ListAt(c, ss[1..], probes);
    }
  }

  lemma NamedRows(c: Setting, ns: seq<Named>, probes: seq<Json>)
    ensures var table := EvalNamed(c.atoms, c.scope, c.bound, ns, probes);
      |table| == |ns| && forall i :: 0 <= i < |ns| ==> table[i] == Row(c, ns[i].schema, probes)
  {
    hide EvalNamed, EvalEach;
    NamedSize(c.atoms, c.scope, c.bound, ns, probes);
    forall i | 0 <= i < |ns| ensures EvalNamed(c.atoms, c.scope, c.bound, ns, probes)[i] == Row(c, ns[i].schema, probes) {
      NamedAt(c.atoms, c.scope, c.bound, ns, probes, i);
    }
  }

  ghost function PartsIn(c: Setting, aps: seq<Applicator>, inst: Json): seq<Part> {
    EvalAll(c.atoms, c.scope, c.bound, aps, inst)
  }

  // The parts of a node are the parts of its applicators, and what is looked up among them is found there.
  lemma {:induction false} PartsMean(c: Setting, aps: seq<Applicator>, inst: Json)
    ensures var parts := PartsIn(c, aps, inst);
      |parts| == |aps| && forall i :: 0 <= i < |aps| ==> parts[i] == PartIn(c, aps[i], inst)
  {
    hide EvalAll, EvalNamed, EvalList, EvalEach;
    if aps == [] {
      AllStep(c.atoms, c.scope, c.bound, Map(Defs, []), [], inst);
    } else {
      var rest := aps[1..];
      assert aps == [aps[0]] + rest;
      AllStep(c.atoms, c.scope, c.bound, aps[0], rest, inst);
      hide PartIn;
      PartsMean(c, rest, inst);
    }
  }

  lemma {:induction false} NamesFound(c: Setting, aps: seq<Applicator>, inst: Json)
    ensures var parts := PartsIn(c, aps, inst);
      NamesOf(parts, Properties) == Names(FindEntries(aps)) && NamesOf(parts, PatternProperties) == Names(PatternsIn(aps))
  {
    hide EvalAll, EvalNamed, EvalList, EvalEach;
    if aps == [] {
      AllStep(c.atoms, c.scope, c.bound, Map(Defs, []), [], inst);
      assert Names([]) == [];
    } else {
      hide Names, NamesOf;
      var rest := aps[1..];
      assert aps == [aps[0]] + rest;
      AllStep(c.atoms, c.scope, c.bound, aps[0], rest, inst);
      NamesFound(c, rest, inst);
      NamesStep(PartIn(c, aps[0], inst), PartsIn(c, rest, inst), Properties);
      NamesStep(PartIn(c, aps[0], inst), PartsIn(c, rest, inst), PatternProperties);
    }
  }

  lemma NamesStep(p: Part, parts: seq<Part>, kind: MapKind)
    ensures NamesOf([p] + parts, kind) == if p.MapPart? && p.mapKind == kind then p.names else NamesOf(parts, kind)
  {
    assert ([p] + parts)[1..] == parts;
  }

  lemma {:induction false} SingleFound(c: Setting, aps: seq<Applicator>, inst: Json, kind: SingleKind)
    ensures var found := FindSingle(PartsIn(c, aps, inst), kind);
      match FindSchema(aps, kind)
      case None => found == None && RowOf(PartsIn(c, aps, inst), kind) == []
      case Some(s) => found == Some(PartIn(c, Single(kind, s), inst)) && RowOf(PartsIn(c, aps, inst), kind) == Row(c, s, SingleProbes(kind, inst))
  {
    hide EvalAll, EvalNamed, EvalList, EvalEach, SingleProbes;
    if aps == [] {
      AllStep(c.atoms, c.scope, c.bound, Map(Defs, []), [], inst);
    } else {
      var rest := aps[1..];
      assert aps == [aps[0]] + rest;
      AllStep(c.atoms, c.scope, c.bound, aps[0], rest, inst);
      SingleFound(c, rest, inst, kind);
      assert PartsIn(c, aps, inst)[1..] == PartsIn(c, rest, inst);
    }
  }

  lemma {:induction false} PrefixFound(c: Setting, aps: seq<Applicator>, inst: Json)
    ensures var found := FindList(PartsIn(c, aps, inst), PrefixItems);
      PrefixLength(aps) == if found.Some? && found.value.ListPart? then |found.value.rows| else 0
  {
    hide EvalAll, EvalNamed, EvalEach, EvalList;
    if aps == [] {
      AllStep(c.atoms, c.scope, c.bound, Map(Defs, []), [], inst);
    } else {
      var rest := aps[1..];
      assert aps == [aps[0]] + rest;
      AllStep(c.atoms, c.scope, c.bound, aps[0], rest, inst);
      PrefixFound(c, rest, inst);
      assert PartsIn(c, aps, inst)[1..] == PartsIn(c, rest, inst);
      if aps[0].List? {
        ListAt(c, aps[0].schemas, ListProbes(aps[0].listKind, inst));
      }
    }
  }

  /******* Keywords that hold a map *******/

  lemma MemberMeans(inst: Json, key: Text)
    ensures HasMember(inst, key) <==> key in MemberNames(Members(inst))
  {
    var ms := Members(inst);
    if m :| m in ms && m.key == key {
      var j :| 0 <= j < |ms| && ms[j] == m;
      assert MemberNames(ms)[j] == key;
    }
    if key in MemberNames(ms) {
      var j :| 0 <= j < |ms| && MemberNames(ms)[j] == key;
      assert ms[j] in ms;
    }
  }

  lemma NameMeans(ns: seq<Named>, key: Text)
    ensures key in Names(ns) <==> exists e :: e in ns && e.name == key
  {
    if e :| e in ns && e.name == key {
      var i :| 0 <= i < |ns| && ns[i] == e;
      assert Names(ns)[i] == key;
    }
    if key in Names(ns) {
      var i :| 0 <= i < |ns| && Names(ns)[i] == key;
      assert ns[i] in ns;
    }
  }

  lemma PatternMeans(c: Setting, ns: seq<Named>, key: Text)
    ensures Matched(c.atoms, Names(ns), key) <==> exists e :: e in ns && c.atoms.matches(e.name, key)
  {
    if e :| e in ns && c.atoms.matches(e.name, key) {
      var i :| 0 <= i < |ns| && ns[i] == e;
      assert c.atoms.matches(Names(ns)[i], key);
    }
    if Matched(c.atoms, Names(ns), key) {
      var i :| 0 <= i < |Names(ns)| && c.atoms.matches(Names(ns)[i], key);
      assert ns[i] in ns;
    }
  }

  lemma LeftOverMeans(c: Setting, aps: seq<Applicator>, inst: Json, key: Text)
    ensures Extra(c.atoms, PartsIn(c, aps, inst), key) <==> LeftOver(c, aps, key)
  {
    hide EvalAll, FindEntries, PatternsIn, Names;
    NamesFound(c, aps, inst);
    NameMeans(FindEntries(aps), key);
    PatternMeans(c, PatternsIn(aps), key);
  }

  // The entry of a table at a member.
  lemma TableAt(c: Setting, es: seq<Named>, inst: Json, i: nat, j: nat)
    requires i < |es| && j < |Members(inst)|
    ensures var table := EvalNamed(c.atoms, c.scope, c.bound, es, MemberValues(Members(inst)));
      && |table| == |es| && (Passes(table[i], j) <==> Accepts(c, es[i].schema, Members(inst)[j].value))
  {
    hide Eval, EvalNamed, EvalEach;
    var probes := MemberValues(Members(inst));
    NamedRows(c, es, probes);
    RowMeans(c, es[i].schema, probes);
  }

  // A table of members accepts when every chosen entry does.
  lemma TableMeans(c: Setting, es: seq<Named>, inst: Json, chosen: (Text, Text) -> bool)
    ensures var table, ms := EvalNamed(c.atoms, c.scope, c.bound, es, MemberValues(Members(inst))), Members(inst);
      (forall i, j :: 0 <= i < |es| && 0 <= j < |ms| && i < |table| && chosen(es[i].name, ms[j].key) ==> Passes(table[i], j)) <==>
      forall e, m :: e in es && m in ms && chosen(e.name, m.key) ==> Accepts(c, e.schema, m.value)
  {
    hide EvalNamed, Accepts, Passes;
    var table, ms := EvalNamed(c.atoms, c.scope, c.bound, es, MemberValues(Members(inst))), Members(inst);
    NamedSize(c.atoms, c.scope, c.bound, es, MemberValues(Members(inst)));
    forall i, j | 0 <= i < |es| && 0 <= j < |ms| ensures Passes(table[i], j) <==> Accepts(c, es[i].schema, ms[j].value) {
      TableAt(c, es, inst, i, j);
    }
    if forall e, m :: e in es && m in ms && chosen(e.name, m.key) ==> Accepts(c, e.schema, m.value) {
      forall i, j | 0 <= i < |es| && 0 <= j < |ms| && chosen(es[i].name, ms[j].key) ensures Passes(table[i], j) {
        assert es[i] in es && ms[j] in ms;
      }
    }
    if forall i, j :: 0 <= i < |es| && 0 <= j < |ms| && i < |table| && chosen(es[i].name, ms[j].key) ==> Passes(table[i], j) {
      forall e, m | e in es && m in ms && chosen(e.name, m.key) ensures Accepts(c, e.schema, m.value) {
        var i :| 0 <= i < |es| && es[i] == e;
        var j :| 0 <= j < |ms| && ms[j] == m;
      }
    }
  }

  lemma DependentAt(c: Setting, es: seq<Named>, inst: Json, i: nat)
    requires i < |es|
    ensures var table := EvalNamed(c.atoms, c.scope, c.bound, es, [inst]);
      && |table| == |es| && table[i] == [Judged(c, es[i].schema, inst)]
  {
    hide Eval, EvalNamed, EvalEach;
    NamedRows(c, es, [inst]);
    RowMeans(c, es[i].schema, [inst]);
  }

  lemma DependentMeans(c: Setting, es: seq<Named>, inst: Json)
    ensures var table, keys := EvalNamed(c.atoms, c.scope, c.bound, es, [inst]), MemberNames(Members(inst));
      (forall i :: 0 <= i < |es| && i < |table| && es[i].name in keys ==> Passes(table[i], 0)) <==>
      forall e :: e in es && HasMember(inst, e.name) ==> Accepts(c, e.schema, inst)
  {
    hide Eval, EvalNamed, MemberNames, HasMember;
    var table, keys := EvalNamed(c.atoms, c.scope, c.bound, es, [inst]), MemberNames(Members(inst));
    forall i | 0 <= i < |es| ensures |table| == |es| && (Passes(table[i], 0) <==> Accepts(c, es[i].schema, inst)) {
      DependentAt(c, es, inst, i);
    }
    forall e ensures e in es ==> (HasMember(inst, e.name) <==> e.name in keys) {
      MemberMeans(inst, e.name);
    }
    if forall i :: 0 <= i < |es| && i < |table| && es[i].name in keys ==> Passes(table[i], 0) {
      forall e | e in es && HasMember(inst, e.name) ensures Accepts(c, e.schema, inst) {
        var i :| 0 <= i < |es| && es[i] == e;
      }
    }
    if forall e :: e in es && HasMember(inst, e.name) ==> Accepts(c, e.schema, inst) {
      forall i | 0 <= i < |es| && es[i].name in keys ensures Passes(table[i], 0) {
        assert es[i] in es;
      }
    }
  }

  lemma MapMeans(c: Setting, n: Schema, a: Applicator, inst: Json)
    requires n.Node? && a.Map?
    ensures MapAccepts(c.atoms, PartIn(c, a, inst), Members(inst)) <==> Obeys(c, n, a, inst)
  {
    hide EvalNamed, Passes, Accepts, HasMember, FindEntries, LeftOver;
    var es, atoms := a.entries, c.atoms;
    match a.mapKind {
      case Defs =>
      case Properties =>
        TableMeans(c, es, inst, (name, key) => key == name);
      case PatternProperties =>
        TableMeans(c, es, inst, (name, key) => atoms.matches(name, key));
      case DependentSchemas =>
        DependentMeans(c, es, inst);
    }
  }

  /******* Keywords that hold a list *******/

  lemma {:induction false} PassingMeans(c: Setting, ss: seq<Schema>, inst: Json)
    ensures var n := Passing(EvalList(c.atoms, c.scope, c.bound, ss, [inst]));
      && (n >= 1 <==> exists i :: 0 <= i < |ss| && Accepts(c, ss[i], inst))
      && (n == 1 <==> exists i :: 0 <= i < |ss| && OnlyAccepts(c, ss, i, inst))
  {
    if ss != [] {
      hide Eval, EvalEach;
      var rest := ss[1..];
      PassingMeans(c, rest, inst);
      RowMeans(c, ss[0], [inst]);
      assert EvalList(c.atoms, c.scope, c.bound, ss, [inst])[1..] == EvalList(c.atoms, c.scope, c.bound, rest, [inst]);
      assert Passes(Row(c, ss[0], [inst]), 0) <==> Accepts(c, ss[0], inst);
      hide Accepts, EvalList, Passes, Passing;
      if i :| 0 <= i < |rest| && Accepts(c, rest[i], inst) {
        assert Accepts(c, ss[i + 1], inst);
      }
      if i :| 0 <= i < |ss| && Accepts(c, ss[i], inst) {
        assert i > 0 ==> Accepts(c, rest[i - 1], inst);
      }
      OneOfStep(c, ss, inst);
    }
  }

  // Exactly one of a list: the first and none of the others, or not the first and exactly one of the others.
  lemma OneOfStep(c: Setting, ss: seq<Schema>, inst: Json)
    requires ss != []
    ensures (exists i :: 0 <= i < |ss| && OnlyAccepts(c, ss, i, inst)) <==>
      if Accepts(c, ss[0], inst) then forall i :: 0 <= i < |ss[1..]| ==> !Accepts(c, ss[1..][i], inst)
      else exists i :: 0 <= i < |ss[1..]| && OnlyAccepts(c, ss[1..], i, inst)
  {
    hide Accepts;
    var rest := ss[1..];
    assert forall j :: 0 < j < |ss| ==> ss[j] == rest[j - 1];
    if Accepts(c, ss[0], inst) {
      if forall i :: 0 <= i < |rest| ==> !Accepts(c, rest[i], inst) {
        assert OnlyAccepts(c, ss, 0, inst);
      }
      if i :| 0 <= i < |ss| && OnlyAccepts(c, ss, i, inst) {
        assert i == 0;
        forall k | 0 <= k < |rest| ensures !Accepts(c, rest[k], inst) {
          assert rest[k] == ss[k + 1];
        }
      }
    } else {
      if i :| 0 <= i < |ss| && OnlyAccepts(c, ss, i, inst) {
        forall j | 0 <= j < |rest| && Accepts(c, rest[j], inst) ensures j == i - 1 {
          assert rest[j] == ss[j + 1];
        }
        assert OnlyAccepts(c, rest, i - 1, inst);
      }
      if i :| 0 <= i < |rest| && OnlyAccepts(c, rest, i, inst) {
        assert OnlyAccepts(c, ss, i + 1, inst);
      }
    }
  }

  lemma ListMeans(c: Setting, n: Schema, a: Applicator, inst: Json)
    requires n.Node? && a.List?
    ensures ListAccepts(PartIn(c, a, inst)) <==> Obeys(c, n, a, inst)
  {
    hide Eval, EvalList, EvalEach, Passing;
    var ss, probes := a.schemas, ListProbes(a.listKind, inst);
    ListAt(c, ss, probes);
    forall i | 0 <= i < |ss|
      ensures Row(c, ss[i], probes) == EvalList(c.atoms, c.scope, c.bound, ss, probes)[i]
      ensures forall j :: 0 <= j < |probes| ==> (Passes(Row(c, ss[i], probes), j) <==> Accepts(c, ss[i], probes[j]))
      ensures forall j :: j >= |probes| ==> Passes(Row(c, ss[i], probes), j)
    {
      RowMeans(c, ss[i], probes);
    }
    if a.listKind == AnyOf || a.listKind == OneOf {
      PassingMeans(c, ss, inst);
    }
    hide Accepts, Row, Passes;
    match a.listKind {
      case AllOf =>
        assert (forall s :: s in ss ==> Accepts(c, s, inst)) <==> forall i :: 0 <= i < |ss| ==> Accepts(c, ss[i], inst);
      case AnyOf =>
        assert (exists s :: s in ss && Accepts(c, s, inst)) <==> exists i :: 0 <= i < |ss| && Accepts(c, ss[i], inst);
      case OneOf =>
      case PrefixItems =>
    }
  }

  /******* Keywords that hold one schema *******/

  ghost function HoldingFrom(c: Setting, s: Schema, items: seq<Json>, from: nat): set<int> {
    set i | from <= i < |items| && Accepts(c, s, items[i])
  }

  lemma {:induction false} HoldingMeans(c: Setting, s: Schema, items: seq<Json>, from: nat)
    requires from <= |items| == |Row(c, s, items)|
    requires forall j :: 0 <= j < |items| ==> Row(c, s, items)[j] == Judged(c, s, items[j])
    ensures PassingItems(Row(c, s, items)[from..]) == |HoldingFrom(c, s, items, from)|
    decreases |items| - from
  {
    hide Judged, Row;
    if from < |items| {
      HoldingMeans(c, s, items, from + 1);
      var more, row := HoldingFrom(c, s, items, from + 1), Row(c, s, items);
      assert row[from..][0] == row[from] && row[from..][1..] == row[from + 1..];
      assert HoldingFrom(c, s, items, from) == if Accepts(c, s, items[from]) then more + {from} else more;
    } else {
      assert HoldingFrom(c, s, items, from) == {};
    }
  }

  lemma ContainsMeans(c: Setting, s: Schema, items: seq<Json>)
    ensures PassingItems(Row(c, s, items)) == |Holding(c, s, items)|
  {
    hide Accepts, Row, PassingItems;
    RowMeans(c, s, items);
    HoldingMeans(c, s, items, 0);
    assert Row(c, s, items)[0..] == Row(c, s, items);
    assert Holding(c, s, items) == HoldingFrom(c, s, items, 0);
  }

  // A row over the members, for the members that are chosen.
  lemma MemberRowMeans(c: Setting, s: Schema, inst: Json, chosen: Text -> bool)
    ensures var row, ms := Row(c, s, MemberValues(Members(inst))), Members(inst);
      (forall j :: 0 <= j < |ms| && chosen(ms[j].key) ==> Passes(row, j)) <==>
      forall m :: m in ms && chosen(m.key) ==> Accepts(c, s, m.value)
  {
    var ms := Members(inst);
    RowMeans(c, s, MemberValues(ms));
    hide Eval, EvalEach;
    var row := Row(c, s, MemberValues(ms));
    forall j | 0 <= j < |ms| ensures Passes(row, j) <==> Accepts(c, s, ms[j].value) {
    }
    hide Row, Accepts, Passes;
    if forall j :: 0 <= j < |ms| && chosen(ms[j].key) ==> Passes(row, j) {
      forall m | m in ms && chosen(m.key) ensures Accepts(c, s, m.value) {
        var j :| 0 <= j < |ms| && ms[j] == m;
      }
    }
    if forall m :: m in ms && chosen(m.key) ==> Accepts(c, s, m.value) {
      forall j | 0 <= j < |ms| && chosen(ms[j].key) ensures Passes(row, j) {
        assert ms[j] in ms;
      }
    }
  }

  // The condition, as the parts have it.
  lemma ConditionMeans(c: Setting, aps: seq<Applicator>, inst: Json)
    ensures var parts := PartsIn(c, aps, inst); var present := FindSingle(parts, If).Some?;
      && (Condition(c, aps, inst, true) <==> present && Passes(RowOf(parts, If), 0))
      && (Condition(c, aps, inst, false) <==> present && !Passes(RowOf(parts, If), 0))
  {
    hide EvalAll, Eval, EvalEach, FindSchema;
    SingleFound(c, aps, inst, If);
    if FindSchema(aps, If).Some? {
      RowMeans(c, FindSchema(aps, If).value, [inst]);
    }
  }

  lemma SingleMeans(c: Setting, n: Schema, s: Schema, kind: SingleKind, inst: Json)
    requires n.Node?
    ensures var parts := PartsIn(c, n.applicators, inst);
      SingleAccepts(c.atoms, n.assertions, parts, PartIn(c, Single(kind, s), inst), inst) <==> Obeys(c, n, Single(kind, s), inst)
  {
    var aps, ms := n.applicators, Members(inst);
    var parts, row := PartsIn(c, aps, inst), Row(c, s, SingleProbes(kind, inst));
    hide Eval, EvalAll, EvalEach, FindSchema, FindEntries, PatternsIn, PrefixLength;
    match kind {
      case Additional => AdditionalMeans(c, n, s, inst);
      case Unevaluated =>
      case PropertyNames => PropertyNamesMean(c, n, s, inst);
      case Not => RowMeans(c, s, [inst]);
      case If =>
      case Then =>
        RowMeans(c, s, [inst]);
        ConditionMeans(c, aps, inst);
      case Else =>
        RowMeans(c, s, [inst]);
        ConditionMeans(c, aps, inst);
      case Items =>
        RowMeans(c, s, Elements(inst));
        PrefixFound(c, aps, inst);
        ItemsMean(c, n, s, inst);
      case Contains =>
        if inst.Arr? {
          ContainsMeans(c, s, inst.items);
        }
    }
  }

  lemma AdditionalMeans(c: Setting, n: Schema, s: Schema, inst: Json)
    requires n.Node?
    ensures var parts := PartsIn(c, n.applicators, inst);
      SingleAccepts(c.atoms, n.assertions, parts, PartIn(c, Single(Additional, s), inst), inst) <==>
      Obeys(c, n, Single(Additional, s), inst)
  {
    hide EvalAll, EvalEach, Extra, LeftOver, Accepts, Passes;
    var aps, ms := n.applicators, Members(inst);
    var atoms, parts := c.atoms, PartsIn(c, aps, inst);
    MemberRowMeans(c, s, inst, key => Extra(atoms, parts, key));
    forall key ensures Extra(atoms, parts, key) <==> LeftOver(c, aps, key) {
      LeftOverMeans(c, aps, inst, key);
    }
  }

  lemma PropertyNamesMean(c: Setting, n: Schema, s: Schema, inst: Json)
    requires n.Node?
    ensures var parts := PartsIn(c, n.applicators, inst);
      SingleAccepts(c.atoms, n.assertions, parts, PartIn(c, Single(PropertyNames, s), inst), inst) <==>
      Obeys(c, n, Single(PropertyNames, s), inst)
  {
    hide Eval, EvalAll, EvalEach;
    var ms, parts, p := Members(inst), PartsIn(c, n.applicators, inst), PartIn(c, Single(PropertyNames, s), inst);
    RowMeans(c, s, NameStrings(ms));
    assert p.row == Row(c, s, NameStrings(ms));
    forall j | 0 <= j < |ms| ensures p.row[j].Valid? <==> Accepts(c, s, Str(ms[j].key)) {
      assert NameStrings(ms)[j] == Str(ms[j].key);
    }
    hide Accepts;
    if !SingleAccepts(c.atoms, n.assertions, parts, p, inst) {
      var j :| 0 <= j < |p.row| && !p.row[j].Valid?;
      assert ms[j] in ms && !Accepts(c, s, Str(ms[j].key));
    }
    if !Obeys(c, n, Single(PropertyNames, s), inst) {
      var m :| m in ms && !Accepts(c, s, Str(m.key));
      var j :| 0 <= j < |ms| && ms[j] == m;
      assert !p.row[j].Valid?;
    }
  }

  lemma ItemsMean(c: Setting, n: Schema, s: Schema, inst: Json)
    requires n.Node?
    ensures var parts := PartsIn(c, n.applicators, inst);
      SingleAccepts(c.atoms, n.assertions, parts, PartIn(c, Single(Items, s), inst), inst) <==>
      Obeys(c, n, Single(Items, s), inst)
  {
    hide EvalAll, EvalEach, Eval, FindList;
    var aps := n.applicators;
    var prefix, items := FindList(PartsIn(c, aps, inst), PrefixItems), Elements(inst);
    PrefixFound(c, aps, inst);
    RowMeans(c, s, items);
    var row := Row(c, s, items);
    forall j | 0 <= j < |items| ensures row[j].Valid? <==> Accepts(c, s, items[j]) {
    }
    hide Row, Accepts;
    assert (forall j :: PrefixLength(aps) <= j < |items| ==> Accepts(c, s, items[j])) <==>
      forall j :: 0 <= j < |row| && j >= PrefixLength(aps) ==> row[j].Valid?;
  }

  /******* A whole schema *******/

  lemma PartMeans(c: Setting, n: Schema, a: Applicator, inst: Json)
    requires n.Node?
    ensures PartAccepts(c.atoms, n.assertions, PartsIn(c, n.applicators, inst), PartIn(c, a, inst), inst) <==> Obeys(c, n, a, inst)
  {
    hide EvalAll, EvalEach, EvalList, EvalNamed, MapAccepts, ListAccepts, SingleAccepts, Obeys;
    match a
    case Map(_, _) => MapMeans(c, n, a, inst);
    case List(_, _) => ListMeans(c, n, a, inst);
    case Single(kind, s) => SingleMeans(c, n, s, kind, inst);
  }

  lemma FirstSees(c: Setting, s: Schema, inst: Json, key: Text)
    ensures key in EvaluatedBy(Row(c, s, [inst])) <==> Sees(c, s, inst, key)
  {
    hide Eval, EvalEach;
    RowMeans(c, s, [inst]);
  }

  lemma {:induction false} UnionMeans(c: Setting, ss: seq<Schema>, inst: Json, key: Text)
    ensures key in UnionOf(EvalList(c.atoms, c.scope, c.bound, ss, [inst])) <==> exists s :: s in ss && Sees(c, s, inst, key)
  {
    if ss != [] {
      hide Eval, EvalEach;
      var rest := ss[1..];
      UnionMeans(c, rest, inst, key);
      FirstSees(c, ss[0], inst, key);
      assert EvalList(c.atoms, c.scope, c.bound, ss, [inst])[1..] == EvalList(c.atoms, c.scope, c.bound, rest, [inst]);
      assert ss == [ss[0]] + rest;
      hide Sees, EvaluatedBy;
    }
  }

  lemma SelectedStep(names: seq<Text>, table: seq<seq<Verdict>>, keys: seq<Text>)
    requires names != [] && table != []
    ensures UnionOf(SelectedRows(names, table, keys)) ==
      (if names[0] in keys then EvaluatedBy(table[0]) else {}) + UnionOf(SelectedRows(names[1..], table[1..], keys))
  {
    hide EvaluatedBy;
    var tail := SelectedRows(names[1..], table[1..], keys);
    assert ([table[0]] + tail)[1..] == tail && [] + tail == tail;
  }

  lemma {:induction false} SelectedMeans(c: Setting, es: seq<Named>, inst: Json, keys: seq<Text>, key: Text)
    ensures var table := EvalNamed(c.atoms, c.scope, c.bound, es, [inst]);
      key in UnionOf(SelectedRows(Names(es), table, keys)) <==> exists e :: e in es && e.name in keys && Sees(c, e.schema, inst, key)
  {
    if es != [] {
      hide Eval, EvalEach;
      var rest := es[1..];
      SelectedMeans(c, rest, inst, keys, key);
      FirstSees(c, es[0].schema, inst, key);
      var table := EvalNamed(c.atoms, c.scope, c.bound, es, [inst]);
      assert table[1..] == EvalNamed(c.atoms, c.scope, c.bound, rest, [inst]) && Names(es)[1..] == Names(rest);
      assert Names(es)[0] == es[0].name && table[0] == Row(c, es[0].schema, [inst]);
      hide Sees, EvaluatedBy, EvalNamed, Names, SelectedRows, UnionOf, Row;
      SelectedStep(Names(es), table, keys);
      assert es == [es[0]] + rest;
    }
  }

  lemma CoversMap(c: Setting, n: Schema, a: Applicator, inst: Json, key: Text)
    requires n.Node? && a.Map?
    ensures key in PartEvaluates(c.atoms, PartsIn(c, n.applicators, inst), PartIn(c, a, inst), inst) <==> Covers(c, n, a, inst, key)
  {
    hide Eval, EvalAll, EvalEach, EvalNamed, Sees, MemberNames, UnionOf, SelectedRows, HasMember, Names, Matched, LeftOver;
    var es, keys := a.entries, MemberNames(Members(inst));
    MemberMeans(inst, key);
    match a.mapKind {
      case Defs =>
      case Properties => NameMeans(es, key);
      case PatternProperties => PatternMeans(c, es, key);
      case DependentSchemas =>
        SelectedMeans(c, es, inst, keys, key);
        forall e ensures e in es ==> (HasMember(inst, e.name) <==> e.name in keys) {
          MemberMeans(inst, e.name);
        }
    }
  }

  lemma CoversSingle(c: Setting, n: Schema, kind: SingleKind, s: Schema, inst: Json, key: Text)
    requires n.Node?
    ensures key in PartEvaluates(c.atoms, PartsIn(c, n.applicators, inst), PartIn(c, Single(kind, s), inst), inst) <==>
            Covers(c, n, Single(kind, s), inst, key)
  {
    hide Eval, EvalAll, EvalEach, Sees, MemberNames, Extra, LeftOver, Condition, EvaluatedBy, FindSingle, RowOf, Passes;
    match kind {
      case Additional =>
        MemberMeans(inst, key);
        LeftOverMeans(c, n.applicators, inst, key);
      case If => FirstSees(c, s, inst, key);
      case Then =>
        FirstSees(c, s, inst, key);
        ConditionMeans(c, n.applicators, inst);
      case Else =>
        FirstSees(c, s, inst, key);
        ConditionMeans(c, n.applicators, inst);
      case _ =>
    }
  }

  lemma CoversPart(c: Setting, n: Schema, a: Applicator, inst: Json, key: Text)
    requires n.Node?
    ensures key in PartEvaluates(c.atoms, PartsIn(c, n.applicators, inst), PartIn(c, a, inst), inst) <==> Covers(c, n, a, inst, key)
  {
    match a
    case Map(_, _) => CoversMap(c, n, a, inst, key);
    case List(kind, ss) =>
      hide Eval, EvalAll, EvalList, EvalNamed, EvalEach, Sees, UnionOf;
      UnionMeans(c, ss, inst, key);
    case Single(kind, s) => CoversSingle(c, n, kind, s, inst, key);
  }

  lemma {:induction false} EvaluatesSome(c: Setting, parts: seq<Part>, todo: seq<Part>, inst: Json, key: Text)
    ensures key in PartsEvaluate(c.atoms, parts, todo, inst) <==>
      exists i :: 0 <= i < |todo| && key in PartEvaluates(c.atoms, parts, todo[i], inst)
  {
    hide PartEvaluates;
    if todo != [] {
      EvaluatesSome(c, parts, todo[1..], inst, key);
      if i :| 0 <= i < |todo[1..]| && key in PartEvaluates(c.atoms, parts, todo[1..][i], inst) {
        assert todo[i + 1] == todo[1..][i];
      }
      if i :| 0 <= i < |todo| && key in PartEvaluates(c.atoms, parts, todo[i], inst) {
        assert i > 0 ==> todo[i] == todo[1..][i - 1];
      }
    }
  }

  // What the reference says, if there is one.
  ghost function Referred(c: Setting, n: Schema, inst: Json): Option<Verdict>
    requires n.Node?
  {
    EvalRef(c.atoms, c.scope, c.bound, n.ref, inst)
  }

  // The member has been evaluated, by the reference or by a keyword.
  ghost predicate Seen(c: Setting, n: Schema, inst: Json, key: Text)
    requires n.Node?
  {
    || (Referred(c, n, inst).Some? && Referred(c, n, inst).value.Valid? && key in Referred(c, n, inst).value.evaluated)
    || exists a :: a in n.applicators && Covers(c, n, a, inst, key)
  }

  lemma SeenMeans(c: Setting, n: Schema, inst: Json, key: Text)
    requires n.Node?
    ensures key in PartsEvaluate(c.atoms, PartsIn(c, n.applicators, inst), PartsIn(c, n.applicators, inst), inst) <==>
      exists a :: a in n.applicators && Covers(c, n, a, inst, key)
  {
    hide EvalAll, PartEvaluates, PartsEvaluate, Covers, PartIn;
    var aps, parts := n.applicators, PartsIn(c, n.applicators, inst);
    PartsMean(c, aps, inst);
    EvaluatesSome(c, parts, parts, inst, key);
    forall i | 0 <= i < |aps| ensures key in PartEvaluates(c.atoms, parts, parts[i], inst) <==> Covers(c, n, aps[i], inst, key) {
      CoversPart(c, n, aps[i], inst, key);
    }
    if a :| a in aps && Covers(c, n, a, inst, key) {
      var i :| 0 <= i < |aps| && aps[i] == a;
    }
  }

  // Members that nothing has evaluated are left to "unevaluatedProperties".
  ghost predicate LeftoversObey(c: Setting, n: Schema, inst: Json)
    requires n.Node?
  {
    var s := FindSchema(n.applicators, Unevaluated);
    s.Some? ==> forall m :: m in Members(inst) && !Seen(c, n, inst, m.key) ==> Accepts(c, s.value, m.value)
  }

  lemma LeftoversMean(c: Setting, n: Schema, inst: Json, done: set<Text>)
    requires n.Node? && forall key :: key in done <==> Seen(c, n, inst, key)
    ensures UnevaluatedPass(PartsIn(c, n.applicators, inst), done, inst) <==> LeftoversObey(c, n, inst)
  {
    hide EvalAll, Eval, EvalEach, FindSchema, Seen, Accepts, Passes, RowOf;
    SingleFound(c, n.applicators, inst, Unevaluated);
    var s, row := FindSchema(n.applicators, Unevaluated), RowOf(PartsIn(c, n.applicators, inst), Unevaluated);
    if s.Some? {
      MemberRowMeans(c, s.value, inst, key => key !in done);
    } else {
      NothingFails(row);
    }
  }

  lemma NothingFails(row: seq<Verdict>)
    ensures row == [] ==> forall j: nat :: Passes(row, j)
  {
  }

  // The evaluator is the keyword-by-keyword reading: a schema accepts a value exactly when its reference does, the type,
  // the required names and the assertions hold, the value obeys every applicator, and unevaluatedProperties accepts the
  // members that nothing has evaluated; and these are all the members that it reports as evaluated.
  lemma NodeMeans(c: Setting, n: Schema, inst: Json)
    requires n.Node?
    ensures Accepts(c, n, inst) <==>
      && (n.ref.Some? ==> Referred(c, n, inst).value.Valid?)
      && TypesAccept(c.atoms, n.types, inst)
      && (n.required.Some? && inst.Obj? ==> forall x :: x in n.required.value ==> HasMember(inst, x))
      && (forall a :: a in n.assertions ==> c.atoms.holds(a, inst))
      && (forall a :: a in n.applicators ==> Obeys(c, n, a, inst))
      && LeftoversObey(c, n, inst)
    ensures Accepts(c, n, inst) ==> forall key ::
      Sees(c, n, inst, key) <==> Seen(c, n, inst, key) || (FindSchema(n.applicators, Unevaluated).Some? && HasMember(inst, key))
  {
    hide Eval, EvalAll, EvalRef, EvalEach, Judge, FindSchema, Obeys, LeftoversObey, Covers, HasMember, MemberNames, PartAccepts, PartsAccept, PartsEvaluate;
    hide TypesAccept, UnevaluatedPass, PartIn;
    var aps, parts, target := n.applicators, PartsIn(c, n.applicators, inst), Referred(c, n, inst);
    var done := (if target.Some? && target.value.Valid? then target.value.evaluated else {}) + PartsEvaluate(c.atoms, parts, parts, inst);
    NodeEval(c.atoms, c.scope, c.bound, n, inst);
    TargetPresent(c, n, inst);
    forall key ensures key in done <==> Seen(c, n, inst, key) {
      SeenMeans(c, n, inst, key);
    }
    LeftoversMean(c, n, inst, done);
    AllObey(c, n, inst);
    RequiredMeans(n.required, inst);
    SingleFound(c, aps, inst, Unevaluated);
    forall key ensures HasMember(inst, key) <==> key in MemberNames(Members(inst)) {
      MemberMeans(inst, key);
    }
    JudgeMeans(c, n, target, parts, inst, done);
  }

  lemma TargetPresent(c: Setting, n: Schema, inst: Json)
    requires n.Node?
    ensures Referred(c, n, inst).Some? <==> n.ref.Some?
  {
    hide Eval;
  }

  lemma AllObey(c: Setting, n: Schema, inst: Json)
    requires n.Node?
    ensures var parts := PartsIn(c, n.applicators, inst);
      PartsAccept(c.atoms, n.assertions, parts, parts, inst) <==> forall a :: a in n.applicators ==> Obeys(c, n, a, inst)
  {
    hide EvalAll, PartAccepts, PartsAccept, Obeys, PartIn;
    var aps, parts := n.applicators, PartsIn(c, n.applicators, inst);
    PartsMean(c, aps, inst);
    AcceptEach(c.atoms, n.assertions, parts, parts, inst);
    forall i | 0 <= i < |aps| ensures PartAccepts(c.atoms, n.assertions, parts, parts[i], inst) <==> Obeys(c, n, aps[i], inst) {
      PartMeans(c, n, aps[i], inst);
    }
    assert (forall a :: a in aps ==> Obeys(c, n, a, inst)) <==> forall i :: 0 <= i < |aps| ==> Obeys(c, n, aps[i], inst);
  }

  lemma RequiredMeans(required: Option<seq<Text>>, inst: Json)
    ensures RequiredPresent(required, inst) <==>
      (required.Some? && inst.Obj? ==> forall x :: x in required.value ==> HasMember(inst, x))
  {
    hide MemberNames, HasMember;
    forall x ensures HasMember(inst, x) <==> x in MemberNames(Members(inst)) {
      MemberMeans(inst, x);
    }
    if required.Some? && inst.Obj? {
      var names := required.value;
      if forall i :: 0 <= i < |names| ==> names[i] in MemberNames(inst.members) {
        forall x | x in names ensures HasMember(inst, x) {
          var i :| 0 <= i < |names| && names[i] == x;
        }
      }
      if forall x :: x in names ==> HasMember(inst, x) {
        forall i | 0 <= i < |names| ensures names[i] in MemberNames(inst.members) {
          assert names[i] in names;
        }
      }
    }
  }

  lemma JudgeMeans(c: Setting, n: Schema, target: Option<Verdict>, parts: seq<Part>, inst: Json, done: set<Text>)
    requires n.Node?
    requires done == (if target.Some? && target.value.Valid? then target.value.evaluated else {}) + PartsEvaluate(c.atoms, parts, parts, inst)
    ensures var r := Judge(c.atoms, n.types, n.required, n.assertions, target, parts, inst);
      && (r.Valid? <==>
            && (target.Some? ==> target.value.Valid?) && TypesAccept(c.atoms, n.types, inst) && RequiredPresent(n.required, inst)
            && (forall a :: a in n.assertions ==> c.atoms.holds(a, inst))
            && PartsAccept(c.atoms, n.assertions, parts, parts, inst) && UnevaluatedPass(parts, done, inst))
      && (r.Valid? ==> forall key :: key in r.evaluated <==>
            key in done || (FindSingle(parts, Unevaluated).Some? && key in MemberNames(Members(inst))))
  {
    hide TypesAccept, RequiredPresent, PartsAccept, UnevaluatedPass, PartsEvaluate, MemberNames;
    forall key ensures key in (set m | m in Members(inst) :: m.key) <==> key in MemberNames(Members(inst)) {
      MemberMeans(inst, key);
    }
  }
}
