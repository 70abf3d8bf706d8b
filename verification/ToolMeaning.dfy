/**
 The flattened tool schema means what the HTTP operation means: it accepts an argument object exactly
 when the request that the binding plan rebuilds from it is valid.
 */
module ToolMeaning {
  import opened Basics
  import opened Unicode
  import opened JsonValues
  import opened Schemas
  import opened SchemaEval
  import opened ToolCompiler

  /******* Reading the tables of verdicts *******/

  lemma {:induction false} EachAt(atoms: Atoms, scope: Scope, bound: nat, s: Schema, probes: seq<Json>, j: nat)
    requires j < |probes|
    ensures EvalEach(atoms, scope, bound, s, probes)[j] == Eval(atoms, scope, bound, s, probes[j])
    decreases |probes|
  {
    hide Eval;
    if j > 0 {
      EachAt(atoms, scope, bound, s, probes[1..], j - 1);
    }
  }

  lemma {:induction false} NamedAt(atoms: Atoms, scope: Scope, bound: nat, ns: seq<Named>, probes: seq<Json>, i: nat)
    requires i < |ns|
    ensures |EvalNamed(atoms, scope, bound, ns, probes)| == |ns|
    ensures EvalNamed(atoms, scope, bound, ns, probes)[i] == EvalEach(atoms, scope, bound, ns[i].schema, probes)
    decreases |ns|
  {
    hide EvalEach;
    NamedSize(atoms, scope, bound, ns, probes);
    if i > 0 {
      NamedAt(atoms, scope, bound, ns[1..], probes, i - 1);
    }
  }

  lemma {:induction false} NamedSize(atoms: Atoms, scope: Scope, bound: nat, ns: seq<Named>, probes: seq<Json>)
    ensures |EvalNamed(atoms, scope, bound, ns, probes)| == |ns|
  {
    hide EvalEach;
    if ns != [] {
      NamedSize(atoms, scope, bound, ns[1..], probes);
    }
  }

  // Every property that is present is valid.
  ghost predicate PropertiesValid(atoms: Atoms, scope: Scope, bound: nat, entries: seq<Named>, ms: seq<Member>) {
    forall i, j :: 0 <= i < |entries| && 0 <= j < |ms| && ms[j].key == entries[i].name ==>
      Eval(atoms, scope, bound, entries[i].schema, ms[j].value).Valid?
  }

  function PropertiesPart(atoms: Atoms, scope: Scope, bound: nat, entries: seq<Named>, inst: Json): Part {
    MapPart(Properties, Names(entries), EvalNamed(atoms, scope, bound, entries, MapProbes(Properties, inst)))
  }

  lemma PropertiesPartAccepts(atoms: Atoms, scope: Scope, bound: nat, entries: seq<Named>, ms: seq<Member>)
    ensures MapAccepts(atoms, PropertiesPart(atoms, scope, bound, entries, Obj(ms)), ms) <==>
            PropertiesValid(atoms, scope, bound, entries, ms)
  {
    hide Eval, EvalNamed, EvalEach;
    var p := PropertiesPart(atoms, scope, bound, entries, Obj(ms));
    NamedSize(atoms, scope, bound, entries, MemberValues(ms));
    forall i, j | 0 <= i < |entries| && 0 <= j < |ms|
      ensures |p.table| == |entries| && |p.table[i]| == |ms|
      ensures p.table[i][j] == Eval(atoms, scope, bound, entries[i].schema, ms[j].value)
    {
      NamedAt(atoms, scope, bound, entries, MemberValues(ms), i);
      EachAt(atoms, scope, bound, entries[i].schema, MemberValues(ms), j);
    }
    if MapAccepts(atoms, p, ms) {
      forall i, j | 0 <= i < |entries| && 0 <= j < |ms| && ms[j].key == entries[i].name
        ensures Eval(atoms, scope, bound, entries[i].schema, ms[j].value).Valid?
      {
        assert ms[j].key == p.names[i];
        assert Passes(p.table[i], j);
      }
    }
    if PropertiesValid(atoms, scope, bound, entries, ms) {
      forall i, j | 0 <= i < |p.names| && 0 <= j < |ms| && i < |p.table| && ms[j].key == p.names[i]
        ensures Passes(p.table[i], j)
      {
        assert ms[j].key == entries[i].name;
      }
    }
  }

  /******* What the tool schema accepts *******/

  // Every argument has a name of the tool and is valid for it, and every required one is present.
  ghost predicate ArgumentsValid(atoms: Atoms, scope: Scope, bound: nat, entries: seq<Named>, required: seq<Text>, ms: seq<Member>) {
    && (forall i :: 0 <= i < |required| ==> required[i] in MemberNames(ms))
    && (forall j :: 0 <= j < |ms| ==> ms[j].key in Names(entries))
    && PropertiesValid(atoms, scope, bound, entries, ms)
  }

  lemma NothingExtra(atoms: Atoms, parts: seq<Part>, row: seq<Verdict>, names: seq<Text>, ms: seq<Member>)
    requires |row| == |ms| && forall j :: 0 <= j < |ms| ==> row[j].Invalid?
    requires NamesOf(parts, Properties) == names && NamesOf(parts, PatternProperties) == []
    ensures SingleAccepts(atoms, [], parts, SinglePart(Additional, row), Obj(ms)) <==>
            forall j :: 0 <= j < |ms| ==> ms[j].key in names
  {
    forall j | 0 <= j < |ms| ensures Extra(atoms, parts, ms[j].key) <==> ms[j].key !in names {}
    forall j | 0 <= j < |ms| && ms[j].key !in names
      ensures !SingleAccepts(atoms, [], parts, SinglePart(Additional, row), Obj(ms))
    {
      assert Extra(atoms, parts, ms[j].key) && !Passes(row, j);
    }
  }

  lemma ToolAccepts(atoms: Atoms, scope: Scope, bound: nat, entries: seq<Named>, required: seq<Text>, defs: seq<Named>, inst: Json)
    ensures Eval(atoms, scope, bound, ToolNode(entries, required, defs), inst).Valid? <==>
            inst.Obj? && ArgumentsValid(atoms, scope, bound, entries, required, inst.members)
  {
    hide Eval, EvalNamed, EvalEach, MapAccepts, SingleAccepts, PartsEvaluate, PartsAccept, PropertiesValid, Names;
    var parts := ToolParts(atoms, scope, bound, entries, defs, inst);
    ToolEval(atoms, scope, bound, entries, required, defs, inst);
    ToolFinds(atoms, scope, bound, entries, defs, inst);
    if inst.Obj? {
      hide Judge;
      var ms := inst.members;
      PropertiesPartAccepts(atoms, scope, bound, entries, ms);
      RefusingRow(atoms, scope, bound, MemberValues(ms));
      NothingExtra(atoms, parts, parts[1].row, Names(entries), ms);
      ToolPartsAccept(atoms, parts, inst);
      JudgePlain(atoms, Some(One("object")), Some(required), parts, inst);
    }
  }

  function ToolParts(atoms: Atoms, scope: Scope, bound: nat, entries: seq<Named>, defs: seq<Named>, inst: Json): seq<Part> {
    [PropertiesPart(atoms, scope, bound, entries, inst),
     SinglePart(Additional, EvalEach(atoms, scope, bound, Always(false), SingleProbes(Additional, inst)))] +
    (if defs == [] then [] else [MapPart(Defs, Names(defs), EvalNamed(atoms, scope, bound, defs, MapProbes(Defs, inst)))])
  }

  // One unfolding of the evaluator, and of its list of applicators.
  lemma NodeEval(atoms: Atoms, scope: Scope, bound: nat, n: Schema, inst: Json)
    requires n.Node?
    ensures Eval(atoms, scope, bound, n, inst) ==
      Judge(atoms, n.types, n.required, n.assertions, EvalRef(atoms, scope, bound, n.ref, inst),
            EvalAll(atoms, scope, bound, n.applicators, inst), inst)
  {
    hide Judge, EvalRef, EvalAll;
  }

  function PartOf(atoms: Atoms, scope: Scope, bound: nat, ap: Applicator, inst: Json): Part {
    match ap
    case Map(kind, entries) => MapPart(kind, Names(entries), EvalNamed(atoms, scope, bound, entries, MapProbes(kind, inst)))
    case List(kind, schemas) => ListPart(kind, EvalList(atoms, scope, bound, schemas, ListProbes(kind, inst)))
    case Single(kind, schema) => SinglePart(kind, EvalEach(atoms, scope, bound, schema, SingleProbes(kind, inst)))
  }

  lemma AllStep(atoms: Atoms, scope: Scope, bound: nat, ap: Applicator, rest: seq<Applicator>, inst: Json)
    ensures EvalAll(atoms, scope, bound, [ap] + rest, inst) ==
            [PartOf(atoms, scope, bound, ap, inst)] + EvalAll(atoms, scope, bound, rest, inst)
    ensures EvalAll(atoms, scope, bound, [], inst) == []
  {
    hide EvalNamed, EvalList, EvalEach;
    assert ([ap] + rest)[1..] == rest;
  }

  lemma ToolEval(atoms: Atoms, scope: Scope, bound: nat, entries: seq<Named>, required: seq<Text>, defs: seq<Named>, inst: Json)
    ensures Eval(atoms, scope, bound, ToolNode(entries, required, defs), inst) ==
            Judge(atoms, Some(One("object")), Some(required), [], None, ToolParts(atoms, scope, bound, entries, defs, inst), inst)
  {
    hide Judge, EvalNamed, EvalEach, EvalAll, Eval;
    var properties, closed := Map(Properties, entries), Single(Additional, Always(false));
    var tail := if defs == [] then [] else [Map(Defs, defs)];
    assert [properties] + ([closed] + tail) == [properties, closed] + tail;
    assert [Map(Defs, defs)] + [] == [Map(Defs, defs)];
    AllStep(atoms, scope, bound, properties, [closed] + tail, inst);
    AllStep(atoms, scope, bound, closed, tail, inst);
    AllStep(atoms, scope, bound, Map(Defs, defs), [], inst);
    NodeEval(atoms, scope, bound, ToolNode(entries, required, defs), inst);
    assert EvalAll(atoms, scope, bound, [properties, closed] + tail, inst) == ToolParts(atoms, scope, bound, entries, defs, inst);
  }

  lemma RefusingRow(atoms: Atoms, scope: Scope, bound: nat, probes: seq<Json>)
    ensures var row := EvalEach(atoms, scope, bound, Always(false), probes);
      |row| == |probes| && forall j :: 0 <= j < |row| ==> row[j].Invalid?
  {
    forall j | 0 <= j < |probes| ensures EvalEach(atoms, scope, bound, Always(false), probes)[j].Invalid? {
      EachAt(atoms, scope, bound, Always(false), probes, j);
    }
  }

  lemma ToolFinds(atoms: Atoms, scope: Scope, bound: nat, entries: seq<Named>, defs: seq<Named>, inst: Json)
    ensures var parts := ToolParts(atoms, scope, bound, entries, defs, inst);
      && NamesOf(parts, Properties) == Names(entries) && NamesOf(parts, PatternProperties) == []
      && FindSingle(parts, Unevaluated).None? && RowOf(parts, Unevaluated) == []
  {
    hide EvalNamed, EvalEach;
    var parts := ToolParts(atoms, scope, bound, entries, defs, inst);
    var tail := parts[2..];
    assert parts[1..][1..] == tail;
    if tail != [] {
      assert tail[1..] == [];
      assert tail[0].MapPart? && tail[0].mapKind == Defs;
    }
    assert FindMap(tail, PatternProperties).None? && FindSingle(tail, Unevaluated).None?;
    assert FindMap(parts[1..], PatternProperties).None? && FindSingle(parts[1..], Unevaluated).None?;
  }

  lemma ToolPartsAccept(atoms: Atoms, parts: seq<Part>, inst: Json)
    requires 2 <= |parts| <= 3 && parts[0].MapPart? && parts[1].SinglePart?
    requires |parts| == 3 ==> parts[2].MapPart? && parts[2].mapKind == Defs
    ensures PartsAccept(atoms, [], parts, parts, inst) <==>
      MapAccepts(atoms, parts[0], Members(inst)) && SingleAccepts(atoms, [], parts, parts[1], inst)
  {
    hide SingleAccepts;
    var tail := parts[2..];
    assert parts[1..][1..] == tail;
    assert PartsAccept(atoms, [], parts, tail, inst) by {
      if tail != [] {
        assert tail[1..] == [];
      }
    }
    assert PartsAccept(atoms, [], parts, parts[1..], inst) == SingleAccepts(atoms, [], parts, parts[1], inst);
  }

  /******* What a closed object body accepts *******/

  // A JSON object has each keyword once.
  ghost predicate UniqueKeywords(aps: seq<Applicator>) {
    forall i, j :: 0 <= i < j < |aps| ==>
      && (aps[i].Map? && aps[j].Map? ==> aps[i].mapKind != aps[j].mapKind)
      && (aps[i].Single? && aps[j].Single? ==> aps[i].singleKind != aps[j].singleKind)
  }

  // A property keyword of the body, wherever it stands.
  lemma {:induction false} BodyParts(atoms: Atoms, scope: Scope, bound: nat, aps: seq<Applicator>, inst: Json)
    requires forall i :: 0 <= i < |aps| ==> BodyApplicator(aps[i])
    ensures var parts := EvalAll(atoms, scope, bound, aps, inst);
      && |parts| == |aps|
      && (forall i :: 0 <= i < |aps| ==> parts[i] == PartOf(atoms, scope, bound, aps[i], inst))
      && NamesOf(parts, Properties) == Names(FindEntries(aps)) && NamesOf(parts, PatternProperties) == []
  {
    hide EvalNamed, EvalEach, EvalAll;
    if aps == [] {
      AllStep(atoms, scope, bound, Map(Properties, []), [], inst);
      assert Names([]) == [];
    } else {
      var rest := aps[1..];
      assert aps == [aps[0]] + rest;
      AllStep(atoms, scope, bound, aps[0], rest, inst);
      BodyParts(atoms, scope, bound, rest, inst);
      var parts := EvalAll(atoms, scope, bound, aps, inst);
      assert parts[1..] == EvalAll(atoms, scope, bound, rest, inst);
    }
  }

  lemma {:induction false} AcceptEach(atoms: Atoms, assertions: seq<Assertion>, parts: seq<Part>, todo: seq<Part>, inst: Json)
    ensures PartsAccept(atoms, assertions, parts, todo, inst) <==>
            forall i :: 0 <= i < |todo| ==> PartAccepts(atoms, assertions, parts, todo[i], inst)
  {
    hide PartAccepts;
    if todo != [] {
      AcceptEach(atoms, assertions, parts, todo[1..], inst);
      assert forall i :: 0 < i < |todo| ==> todo[i] == todo[1..][i - 1];
    }
  }

  lemma {:induction false} EvaluatesEach(atoms: Atoms, parts: seq<Part>, todo: seq<Part>, inst: Json, i: nat)
    requires i < |todo|
    ensures PartEvaluates(atoms, parts, todo[i], inst) <= PartsEvaluate(atoms, parts, todo, inst)
  {
    hide PartEvaluates;
    if i > 0 {
      EvaluatesEach(atoms, parts, todo[1..], inst, i - 1);
    }
  }

  lemma {:induction false} EntriesAt(aps: seq<Applicator>)
    requires FindEntries(aps) != []
    ensures exists i :: 0 <= i < |aps| && aps[i] == Map(Properties, FindEntries(aps))
  {
    if aps[0].Map? && aps[0].mapKind == Properties {
      assert aps[0] == Map(Properties, FindEntries(aps));
    } else {
      EntriesAt(aps[1..]);
      var i :| 0 <= i < |aps[1..]| && aps[1..][i] == Map(Properties, FindEntries(aps));
      assert aps[i + 1] == Map(Properties, FindEntries(aps));
    }
  }

  lemma {:induction false} OnlyEntries(aps: seq<Applicator>, i: nat)
    requires UniqueKeywords(aps) && i < |aps| && aps[i].Map? && aps[i].mapKind == Properties
    ensures aps[i].entries == FindEntries(aps)
  {
    if i > 0 {
      assert !(aps[0].Map? && aps[0].mapKind == Properties);
      assert UniqueKeywords(aps[1..]);
      OnlyEntries(aps[1..], i - 1);
    }
  }

  // What a body says of the value of a member that it does not declare.
  ghost predicate AcceptsExtra(atoms: Atoms, scope: Scope, bound: nat, body: Schema, v: Json) {
    body.Node? && var extra := FindSchema(body.applicators, Additional);
    extra.Some? && Eval(atoms, scope, bound, extra.value, v).Valid?
  }

  ghost predicate ExtrasAccepted(atoms: Atoms, scope: Scope, bound: nat, body: Schema, ms: seq<Member>) {
    forall j :: 0 <= j < |ms| && ms[j].key !in Names(Entries(body)) ==> AcceptsExtra(atoms, scope, bound, body, ms[j].value)
  }

  // What an object body that the compiler flattens accepts.  Being closed does not keep undeclared members out:
  // additionalProperties is asked first, and unevaluatedProperties sees only what it has left over.
  lemma BodyAccepts(atoms: Atoms, scope: Scope, bound: nat, body: Schema, taken: set<Text>, ms: seq<Member>)
    requires IsObject(body) && ObjectBodyOk(body, taken) && UniqueKeywords(body.applicators)
    ensures Eval(atoms, scope, bound, body, Obj(ms)).Valid? <==>
      && (forall i :: 0 <= i < |BodyRequired(body)| ==> BodyRequired(body)[i] in MemberNames(ms))
      && PropertiesValid(atoms, scope, bound, Entries(body), ms)
      && ExtrasAccepted(atoms, scope, bound, body, ms)
  {
    hide Eval, EvalNamed, EvalEach, EvalAll, PartsAccept, PartsEvaluate, PropertiesValid, PartAccepts, Judge, Names, UnevaluatedPass, ClosedBody;
    var aps, inst := body.applicators, Obj(ms);
    var parts := EvalAll(atoms, scope, bound, aps, inst);
    NodeEval(atoms, scope, bound, body, inst);
    AcceptEach(atoms, [], parts, parts, inst);
    BodyPartsAccept(atoms, scope, bound, aps, ms);
    LeftoversRefused(atoms, scope, bound, body, ms);
    JudgeObject(atoms, body.types, body.required, parts, inst);
  }

  lemma JudgeObject(atoms: Atoms, types: Option<TypeName>, required: Option<seq<Text>>, parts: seq<Part>, inst: Json)
    requires TypesAccept(atoms, types, inst)
    ensures Judge(atoms, types, required, [], None, parts, inst).Valid? <==>
      && RequiredPresent(required, inst) && PartsAccept(atoms, [], parts, parts, inst)
      && UnevaluatedPass(parts, PartsEvaluate(atoms, parts, parts, inst), inst)
  {
    hide PartsAccept, PartsEvaluate, UnevaluatedPass;
    var done := PartsEvaluate(atoms, parts, parts, inst);
    assert {} + done == done;
  }

  // {"not": {}} refuses every instance.
  lemma NotAnythingRefuses(atoms: Atoms, scope: Scope, bound: nat, v: Json)
    ensures Eval(atoms, scope, bound, NOT_ANYTHING, v).Invalid?
  {
    hide EvalAll, EvalEach;
    NodeEval(atoms, scope, bound, NOT_ANYTHING, v);
    NodeEval(atoms, scope, bound, EMPTY_NODE, v);
    var ap := Single(Not, EMPTY_NODE);
    assert [ap] + [] == [ap];
    AllStep(atoms, scope, bound, ap, [], v);
    EachAt(atoms, scope, bound, EMPTY_NODE, [v], 0);
  }

  lemma {:induction false} SingleFound(atoms: Atoms, scope: Scope, bound: nat, aps: seq<Applicator>, inst: Json, kind: SingleKind)
    ensures FindSingle(EvalAll(atoms, scope, bound, aps, inst), kind) ==
      (match FindSchema(aps, kind)
       case None => None
       case Some(s) => Some(SinglePart(kind, EvalEach(atoms, scope, bound, s, SingleProbes(kind, inst)))))
  {
    hide EvalNamed, EvalList, EvalEach;
    if aps != [] {
      SingleFound(atoms, scope, bound, aps[1..], inst, kind);
      var parts := EvalAll(atoms, scope, bound, aps, inst);
      assert parts[1..] == EvalAll(atoms, scope, bound, aps[1..], inst);
    }
  }

  // Where additionalProperties is absent, a closed body refuses every leftover.
  lemma LeftoverRefused(atoms: Atoms, scope: Scope, bound: nat, body: Schema, ms: seq<Member>, j: nat)
    requires body.Node? && ClosedBody(body) && FindSchema(body.applicators, Additional).None? && j < |ms|
    ensures !Passes(RowOf(EvalAll(atoms, scope, bound, body.applicators, Obj(ms)), Unevaluated), j)
  {
    hide EvalAll, EvalEach, Eval;
    SingleFound(atoms, scope, bound, body.applicators, Obj(ms), Unevaluated);
    var s := FindSchema(body.applicators, Unevaluated).value;
    EachAt(atoms, scope, bound, s, MemberValues(ms), j);
    NotAnythingRefuses(atoms, scope, bound, ms[j].value);
    FalseRefuses(atoms, scope, bound, ms[j].value);
  }

  lemma FalseRefuses(atoms: Atoms, scope: Scope, bound: nat, v: Json)
    ensures Eval(atoms, scope, bound, Always(false), v).Invalid?
  {
  }

  lemma LeftoversRefused(atoms: Atoms, scope: Scope, bound: nat, body: Schema, ms: seq<Member>)
    requires body.Node? && ClosedBody(body) && UniqueKeywords(body.applicators)
    requires forall i :: 0 <= i < |body.applicators| ==> BodyApplicator(body.applicators[i])
    ensures var parts := EvalAll(atoms, scope, bound, body.applicators, Obj(ms));
      UnevaluatedPass(parts, PartsEvaluate(atoms, parts, parts, Obj(ms)), Obj(ms)) <==>
      (FindSchema(body.applicators, Additional).None? ==> forall j :: 0 <= j < |ms| ==> ms[j].key in Names(Entries(body)))
  {
    hide EvalAll, EvalEach, Eval, PartsEvaluate, ClosedBody, Names, FindSchema, Passes;
    var aps, inst := body.applicators, Obj(ms);
    var parts := EvalAll(atoms, scope, bound, aps, inst);
    var done := PartsEvaluate(atoms, parts, parts, inst);
    forall j | 0 <= j < |ms|
      ensures ms[j].key in done <==> ms[j].key in Names(Entries(body)) || FindSchema(aps, Additional).Some?
    {
      BodyEvaluated(atoms, scope, bound, aps, ms, j);
    }
    if FindSchema(aps, Additional).None? {
      forall j | 0 <= j < |ms| ensures !Passes(RowOf(parts, Unevaluated), j) {
        LeftoverRefused(atoms, scope, bound, body, ms, j);
      }
      if j :| 0 <= j < |ms| && ms[j].key !in Names(Entries(body)) {
        assert !Passes(RowOf(parts, Unevaluated), j) && Members(inst)[j].key !in done;
      }
    }
  }

  // An object schema without reference and assertions, all of whose members are evaluated.
  lemma JudgePlain(atoms: Atoms, types: Option<TypeName>, required: Option<seq<Text>>, parts: seq<Part>, inst: Json)
    requires TypesAccept(atoms, types, inst) && UnevaluatedPass(parts, PartsEvaluate(atoms, parts, parts, inst), inst)
    ensures Judge(atoms, types, required, [], None, parts, inst).Valid? <==>
            RequiredPresent(required, inst) && PartsAccept(atoms, [], parts, parts, inst)
  {
    hide PartsAccept, PartsEvaluate, UnevaluatedPass;
    var done := PartsEvaluate(atoms, parts, parts, inst);
    assert {} + done == done;
  }

  lemma {:induction false} EvaluatedSome(atoms: Atoms, parts: seq<Part>, todo: seq<Part>, inst: Json, key: Text)
    requires key in PartsEvaluate(atoms, parts, todo, inst)
    ensures exists i :: 0 <= i < |todo| && key in PartEvaluates(atoms, parts, todo[i], inst)
  {
    hide PartEvaluates;
    if key !in PartEvaluates(atoms, parts, todo[0], inst) {
      EvaluatedSome(atoms, parts, todo[1..], inst, key);
      var i :| 0 <= i < |todo[1..]| && key in PartEvaluates(atoms, parts, todo[1..][i], inst);
      assert todo[i + 1] == todo[1..][i];
    }
  }

  lemma {:induction false} SchemaAt(aps: seq<Applicator>, kind: SingleKind)
    requires FindSchema(aps, kind).Some?
    ensures exists i :: 0 <= i < |aps| && aps[i] == Single(kind, FindSchema(aps, kind).value)
  {
    if aps[0].Single? && aps[0].singleKind == kind {
      assert aps[0] == Single(kind, FindSchema(aps, kind).value);
    } else {
      SchemaAt(aps[1..], kind);
      var i :| 0 <= i < |aps[1..]| && aps[1..][i] == Single(kind, FindSchema(aps, kind).value);
      assert aps[i + 1] == Single(kind, FindSchema(aps, kind).value);
    }
  }

  lemma {:induction false} OnlySchema(aps: seq<Applicator>, i: nat)
    requires i < |aps| && aps[i].Single?
    ensures FindSchema(aps, aps[i].singleKind).Some?
    ensures UniqueKeywords(aps) ==> FindSchema(aps, aps[i].singleKind).value == aps[i].schema
  {
    if i > 0 && !(aps[0].Single? && aps[0].singleKind == aps[i].singleKind) {
      assert UniqueKeywords(aps) ==> UniqueKeywords(aps[1..]);
      OnlySchema(aps[1..], i - 1);
    }
  }

  // A member is evaluated when the body declares it, and otherwise when additionalProperties looks at it.
  lemma BodyEvaluated(atoms: Atoms, scope: Scope, bound: nat, aps: seq<Applicator>, ms: seq<Member>, j: nat)
    requires j < |ms| && UniqueKeywords(aps) && forall i :: 0 <= i < |aps| ==> BodyApplicator(aps[i])
    ensures var parts := EvalAll(atoms, scope, bound, aps, Obj(ms));
      ms[j].key in PartsEvaluate(atoms, parts, parts, Obj(ms)) <==>
      ms[j].key in Names(FindEntries(aps)) || FindSchema(aps, Additional).Some?
  {
    hide EvalNamed, EvalEach, EvalAll, PartsEvaluate, Names, FindEntries, FindSchema;
    var parts, key := EvalAll(atoms, scope, bound, aps, Obj(ms)), ms[j].key;
    BodyParts(atoms, scope, bound, aps, Obj(ms));
    assert key == MemberNames(ms)[j];
    if key in Names(FindEntries(aps)) {
      EntriesAt(aps);
      var i :| 0 <= i < |aps| && aps[i] == Map(Properties, FindEntries(aps));
      EvaluatesEach(atoms, parts, parts, Obj(ms), i);
      assert parts[i] == PartOf(atoms, scope, bound, aps[i], Obj(ms));
    } else if FindSchema(aps, Additional).Some? {
      SchemaAt(aps, Additional);
      var i :| 0 <= i < |aps| && aps[i] == Single(Additional, FindSchema(aps, Additional).value);
      EvaluatesEach(atoms, parts, parts, Obj(ms), i);
      assert parts[i] == PartOf(atoms, scope, bound, aps[i], Obj(ms));
    } else if key in PartsEvaluate(atoms, parts, parts, Obj(ms)) {
      EvaluatedSome(atoms, parts, parts, Obj(ms), key);
      var i :| 0 <= i < |parts| && key in PartEvaluates(atoms, parts, parts[i], Obj(ms));
      assert parts[i] == PartOf(atoms, scope, bound, aps[i], Obj(ms)) && BodyApplicator(aps[i]);
      if aps[i].Map? {
        OnlyEntries(aps, i);
      } else {
        OnlySchema(aps, i);
      }
    }
  }

  lemma BodyPartsAccept(atoms: Atoms, scope: Scope, bound: nat, aps: seq<Applicator>, ms: seq<Member>)
    requires UniqueKeywords(aps) && forall i :: 0 <= i < |aps| ==> BodyApplicator(aps[i])
    ensures var parts := EvalAll(atoms, scope, bound, aps, Obj(ms));
      (forall i :: 0 <= i < |parts| ==> PartAccepts(atoms, [], parts, parts[i], Obj(ms))) <==>
      && PropertiesValid(atoms, scope, bound, FindEntries(aps), ms)
      && AdditionalValid(atoms, scope, bound, aps, ms)
  {
    hide EvalNamed, EvalEach, EvalAll, PropertiesValid, AdditionalValid, PartAccepts, FindSchema, FindEntries;
    var inst, entries := Obj(ms), FindEntries(aps);
    var parts := EvalAll(atoms, scope, bound, aps, inst);
    BodyParts(atoms, scope, bound, aps, inst);
    forall i | 0 <= i < |aps|
      ensures aps[i].Map? ==> (PartAccepts(atoms, [], parts, parts[i], inst) <==> PropertiesValid(atoms, scope, bound, entries, ms))
      ensures aps[i].Single? && aps[i].singleKind == Additional ==>
        (PartAccepts(atoms, [], parts, parts[i], inst) <==> AdditionalValid(atoms, scope, bound, aps, ms))
      ensures aps[i].Single? && aps[i].singleKind == Unevaluated ==> PartAccepts(atoms, [], parts, parts[i], inst)
    {
      assert parts[i] == PartOf(atoms, scope, bound, aps[i], inst) && BodyApplicator(aps[i]);
      BodyPartAccepts(atoms, scope, bound, aps, ms, i, parts);
    }
    if entries != [] {
      EntriesAt(aps);
    } else {
      NoPropertiesValid(atoms, scope, bound, ms);
    }
    if FindSchema(aps, Additional).Some? {
      SchemaAt(aps, Additional);
    } else {
      NoAdditionalValid(atoms, scope, bound, aps, ms);
    }
  }

  ghost predicate AdditionalValid(atoms: Atoms, scope: Scope, bound: nat, aps: seq<Applicator>, ms: seq<Member>) {
    var extra := FindSchema(aps, Additional);
    extra.Some? ==> forall j :: 0 <= j < |ms| && ms[j].key !in Names(FindEntries(aps)) ==>
      Eval(atoms, scope, bound, extra.value, ms[j].value).Valid?
  }

  lemma NoAdditionalValid(atoms: Atoms, scope: Scope, bound: nat, aps: seq<Applicator>, ms: seq<Member>)
    requires FindSchema(aps, Additional).None?
    ensures AdditionalValid(atoms, scope, bound, aps, ms)
  {
  }

  lemma BodyPartAccepts(atoms: Atoms, scope: Scope, bound: nat, aps: seq<Applicator>, ms: seq<Member>, i: nat, parts: seq<Part>)
    requires UniqueKeywords(aps) && i < |aps| == |parts| && BodyApplicator(aps[i])
    requires parts[i] == PartOf(atoms, scope, bound, aps[i], Obj(ms))
    requires NamesOf(parts, Properties) == Names(FindEntries(aps)) && NamesOf(parts, PatternProperties) == []
    ensures PartAccepts(atoms, [], parts, parts[i], Obj(ms)) <==>
      if aps[i].Map? then PropertiesValid(atoms, scope, bound, FindEntries(aps), ms)
      else aps[i].singleKind == Additional ==> AdditionalValid(atoms, scope, bound, aps, ms)
  {
    hide EvalNamed, EvalEach, Eval, PropertiesValid, MapAccepts, Names, FindEntries, FindSchema, NamesOf;
    if aps[i].Map? {
      OnlyEntries(aps, i);
      PropertiesPartAccepts(atoms, scope, bound, FindEntries(aps), ms);
    } else if aps[i].singleKind == Additional {
      OnlySchema(aps, i);
      forall j | 0 <= j < |ms|
        ensures Passes(parts[i].row, j) <==> Eval(atoms, scope, bound, aps[i].schema, ms[j].value).Valid?
        ensures Extra(atoms, parts, ms[j].key) <==> ms[j].key !in Names(FindEntries(aps))
      {
        EachAt(atoms, scope, bound, aps[i].schema, MemberValues(ms), j);
      }
    }
  }

  lemma NoPropertiesValid(atoms: Atoms, scope: Scope, bound: nat, ms: seq<Member>)
    ensures PropertiesValid(atoms, scope, bound, [], ms)
  {
  }
}
