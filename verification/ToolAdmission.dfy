/**
 What an operation and a bundle must be for a tool to be compiled, said of all parameters, properties and keywords at
 once instead of one after the other.
 */
module ToolAdmission {
  import opened Basics
  import opened Unicode
  import opened Schemas
  import opened ToolCompiler
  import opened ToolMeaning
  import opened ToolTheorem

  /******* Parameters and path *******/

  // One parameter, as _closed_tool_schema wants it.
  predicate Fits(p: Parameter, resources: Resources) {
    && (p.location == "query" || (p.location == "path" && p.required)) && p.name != []
    && p.schemaId in resources
    && match resources[p.schemaId]
       case Node(_, _, Some(One(t)), _, _, _, _) => t == "string" || t == "integer" || t == "number" || t == "boolean"
       case _ => false
  }

  predicate ParametersFit(ps: seq<Parameter>, resources: Resources) {
    && (forall i :: 0 <= i < |ps| ==> Fits(ps[i], resources))
    && (forall i, j :: 0 <= i < j < |ps| ==> ps[i].name != ps[j].name)
  }

  lemma {:induction false} NamedParameter(ps: seq<Parameter>, key: Text)
    ensures key in ParameterNames(ps) <==> exists i :: 0 <= i < |ps| && ps[i].name == key
  {
    if ps != [] {
      NamedParameter(Front(ps), key);
      assert forall i :: 0 <= i < |ps| - 1 ==> Front(ps)[i] == ps[i];
      if key in ParameterNames(Front(ps)) {
        var i :| 0 <= i < |Front(ps)| && Front(ps)[i].name == key;
        assert ps[i].name == key;
      } else if key == Last(ps).name {
        assert ps[|ps| - 1].name == key;
      }
    }
  }

  lemma FitsOne(p: Parameter, taken: set<Text>, resources: Resources)
    ensures ParameterOk(p, taken, resources) <==> Fits(p, resources) && p.name !in taken
  {
  }

  lemma {:induction false} ParametersMean(ps: seq<Parameter>, resources: Resources)
    ensures ParametersOk(ps, resources) <==> ParametersFit(ps, resources)
  {
    if ps != [] {
      hide Fits, ParameterOk, ParameterNames;
      var front, last := Front(ps), Last(ps);
      ParametersMean(front, resources);
      FitsOne(last, ParameterNames(front), resources);
      NamedParameter(front, last.name);
      assert forall i :: 0 <= i < |front| ==> front[i] == ps[i];
      if ParametersFit(front, resources) && Fits(last, resources) && last.name !in ParameterNames(front) {
        forall i, j | 0 <= i < j < |ps| ensures ps[i].name != ps[j].name {
          assert front[i] == ps[i];
        }
      }
      if ParametersFit(ps, resources) {
        forall i, j | 0 <= i < j < |front| ensures front[i].name != front[j].name {
          assert front[i] == ps[i] && front[j] == ps[j];
        }
        assert last == ps[|ps| - 1];
      }
    }
  }

  // The fields of the path template are the path parameters, and no field is repeated.
  lemma PathMeans(op: Operation)
    ensures PathOk(op) <==>
      && op.pathFields.Some? && Distinct(op.pathFields.value)
      && forall f :: f in op.pathFields.value <==> exists p :: p in op.parameters && p.location == "path" && p.name == f
  {
    forall f ensures f in PathNames(op.parameters) <==> exists p :: p in op.parameters && p.location == "path" && p.name == f {
      PathNamed(op.parameters, f);
    }
    if op.pathFields.Some? {
      var fields := set f | f in op.pathFields.value;
      assert forall f :: f in fields <==> f in op.pathFields.value;
    }
  }

  /******* The body *******/

  // {"not": {}}
  const NOTHING_MORE := Node(None, None, None, None, [], {}, [Single(Not, Node(None, None, None, None, [], {}, []))])

  // An object body that is flattened: closed by one of three keywords, with nothing but properties and their names.
  predicate BodyFits(s: Schema, taken: set<Text>)
    requires s.Node?
  {
    && (|| Single(Additional, Always(false)) in s.applicators || Single(Unevaluated, Always(false)) in s.applicators
        || Single(Unevaluated, NOTHING_MORE) in s.applicators)
    && s.ref == None && s.assertions == []
    && (forall a :: a in s.annotations ==> a == "$schema" || a == "title" || a == "description")
    && (forall a :: a in s.applicators ==>
          match a
          case Map(kind, entries) => kind == Properties && forall e :: e in entries ==> e.name !in taken && Supported(e.schema)
          case Single(kind, _) => kind == Additional || kind == Unevaluated
          case List(_, _) => false)
    && (s.required.Some? ==>
          && Distinct(s.required.value)
          && forall x :: x in s.required.value ==> exists a, e :: a in s.applicators && a.Map? && e in a.entries && e.name == x)
  }

  lemma {:induction false} FoundIsHeld(aps: seq<Applicator>, kind: SingleKind, schema: Schema)
    requires UniqueKeywords(aps)
    ensures FindSchema(aps, kind) == Some(schema) <==> Single(kind, schema) in aps
  {
    if aps != [] {
      var rest := aps[1..];
      assert UniqueKeywords(rest);
      FoundIsHeld(rest, kind, schema);
      assert aps == [aps[0]] + rest;
    }
  }

  // The property `e` is listed under "properties".
  ghost predicate Listed(aps: seq<Applicator>, e: Named) {
    exists a :: a in aps && a.Map? && a.mapKind == Properties && e in a.entries
  }

  lemma EntriesMean(aps: seq<Applicator>, e: Named)
    requires UniqueKeywords(aps)
    ensures e in FindEntries(aps) <==> Listed(aps, e)
  {
    if e in FindEntries(aps) {
      EntriesAt(aps);
      var i :| 0 <= i < |aps| && aps[i] == Map(Properties, FindEntries(aps));
      assert aps[i] in aps;
    }
    if Listed(aps, e) {
      var a :| a in aps && a.Map? && a.mapKind == Properties && e in a.entries;
      var i :| 0 <= i < |aps| && aps[i] == a;
      OnlyEntries(aps, i);
    }
  }

  lemma {:induction false} NamesMean(ns: seq<Named>, x: Text)
    ensures x in Names(ns) <==> exists e :: e in ns && e.name == x
  {
    if x in Names(ns) {
      var i :| 0 <= i < |ns| && Names(ns)[i] == x;
      assert ns[i] in ns;
    }
    if e :| e in ns && e.name == x {
      var i :| 0 <= i < |ns| && ns[i] == e;
      assert Names(ns)[i] == x;
    }
  }

  lemma KeywordsMean(s: Schema, taken: set<Text>)
    requires s.Node? && UniqueKeywords(s.applicators)
    ensures (forall a :: a in s.applicators ==>
          match a
          case Map(kind, entries) => kind == Properties && forall e :: e in entries ==> e.name !in taken && Supported(e.schema)
          case Single(kind, _) => kind == Additional || kind == Unevaluated
          case List(_, _) => false)
      <==>
        && (forall i :: 0 <= i < |s.applicators| ==> BodyApplicator(s.applicators[i]))
        && (forall i :: 0 <= i < |Entries(s)| ==> Entries(s)[i].name !in taken && Supported(Entries(s)[i].schema))
  {
    hide Supported, FindEntries, UniqueKeywords;
    var aps, es := s.applicators, Entries(s);
    forall e ensures e in es <==> Listed(aps, e) {
      EntriesMean(aps, e);
    }
    if (forall i :: 0 <= i < |aps| ==> BodyApplicator(aps[i])) && (forall i :: 0 <= i < |es| ==> es[i].name !in taken && Supported(es[i].schema)) {
      forall a | a in aps ensures BodyApplicator(a) && (a.Map? ==> forall e :: e in a.entries ==> e.name !in taken && Supported(e.schema)) {
        assert BodyApplicator(a);
        if a.Map? {
          forall e | e in a.entries ensures e.name !in taken && Supported(e.schema) {
            assert Listed(aps, e);
          }
        }
      }
    }
    if forall a :: a in aps ==>
          match a
          case Map(kind, entries) => kind == Properties && forall e :: e in entries ==> e.name !in taken && Supported(e.schema)
          case Single(kind, _) => kind == Additional || kind == Unevaluated
          case List(_, _) => false
    {
      forall i | 0 <= i < |aps| ensures BodyApplicator(aps[i]) {
        assert aps[i] in aps;
      }
      forall i | 0 <= i < |es| ensures es[i].name !in taken && Supported(es[i].schema) {
        assert es[i] in es && Listed(aps, es[i]);
        var a :| a in aps && a.Map? && a.mapKind == Properties && es[i] in a.entries;
      }
    }
  }

  lemma RequiredMeans(s: Schema)
    requires s.Node? && UniqueKeywords(s.applicators) && forall a :: a in s.applicators && a.Map? ==> a.mapKind == Properties
    ensures RequiredDeclared(s) <==>
      (s.required.Some? ==>
         && Distinct(s.required.value)
         && forall x :: x in s.required.value ==> exists a, e :: a in s.applicators && a.Map? && e in a.entries && e.name == x)
  {
    hide FindEntries, Names, UniqueKeywords;
    var names := BodyRequired(s);
    forall x ensures x in Names(Entries(s)) <==> exists a, e :: a in s.applicators && a.Map? && e in a.entries && e.name == x {
      DeclaredMeans(s, x);
    }
    if s.required.Some? {
      assert (forall i :: 0 <= i < |names| ==> names[i] in Names(Entries(s))) <==> forall x :: x in names ==> x in Names(Entries(s));
    }
  }

  lemma DeclaredMeans(s: Schema, x: Text)
    requires s.Node? && UniqueKeywords(s.applicators) && forall a :: a in s.applicators && a.Map? ==> a.mapKind == Properties
    ensures x in Names(Entries(s)) <==> exists a, e :: a in s.applicators && a.Map? && e in a.entries && e.name == x
  {
    hide FindEntries, UniqueKeywords;
    NamesMean(Entries(s), x);
    if e :| e in Entries(s) && e.name == x {
      EntriesMean(s.applicators, e);
      var a :| a in s.applicators && a.Map? && a.mapKind == Properties && e in a.entries;
    }
    if a, e :| a in s.applicators && a.Map? && e in a.entries && e.name == x {
      assert Listed(s.applicators, e);
      EntriesMean(s.applicators, e);
    }
  }

  lemma BodyMeans(s: Schema, taken: set<Text>)
    requires s.Node? && UniqueKeywords(s.applicators)
    ensures ObjectBodyOk(s, taken) <==> BodyFits(s, taken)
  {
    hide FindSchema, FindEntries, Supported, UniqueKeywords, RequiredDeclared;
    FoundIsHeld(s.applicators, Additional, Always(false));
    FoundIsHeld(s.applicators, Unevaluated, Always(false));
    FoundIsHeld(s.applicators, Unevaluated, NOT_ANYTHING);
    assert s.annotations <= {"$schema", "title", "description"} <==>
      forall a :: a in s.annotations ==> a == "$schema" || a == "title" || a == "description";
    KeywordsMean(s, taken);
    if (forall i :: 0 <= i < |s.applicators| ==> BodyApplicator(s.applicators[i])) || BodyFits(s, taken) {
      RequiredMeans(s);
    }
  }

  /******* The operation *******/

  // An operation that is compiled as far as its own tests go; what remains is the closure of its references.
  ghost predicate Admitted(op: Operation, resources: Resources) {
    && ParametersFit(op.parameters, resources)
    && op.pathFields.Some? && Distinct(op.pathFields.value)
    && (forall f :: f in op.pathFields.value <==> exists p :: p in op.parameters && p.location == "path" && p.name == f)
    && (op.request.Some? ==>
          && op.request.value in resources
          && var body, taken := resources[op.request.value], set p | p in op.parameters :: p.name;
             if body.Node? && body.types == Some(One("object")) then BodyFits(body, taken) else [0x62, 0x6F, 0x64, 0x79] !in taken)
  }

  // The tests of the compiler, one parameter and one property after the other, accept exactly these operations.
  lemma AdmissionExact(op: Operation, resources: Resources)
    requires forall id :: id in resources && resources[id].Node? ==> UniqueKeywords(resources[id].applicators)
    ensures Acceptable(op, resources) <==> Admitted(op, resources)
  {
    hide ParametersOk, ParametersFit, PathOk, ObjectBodyOk, BodyFits, UniqueKeywords, ParameterNames;
    ParametersMean(op.parameters, resources);
    PathMeans(op);
    var taken := set p | p in op.parameters :: p.name;
    forall key ensures key in ParameterNames(op.parameters) <==> key in taken {
      NamedParameter(op.parameters, key);
      if i :| 0 <= i < |op.parameters| && op.parameters[i].name == key {
        assert op.parameters[i] in op.parameters;
      }
    }
    assert ParameterNames(op.parameters) == taken;
    if op.request.Some? && op.request.value in resources && IsObject(resources[op.request.value]) {
      BodyMeans(resources[op.request.value], taken);
    }
  }

  /******* The two vocabularies *******/

  // A bundle identifier.
  lemma IdMeans(s: string)
    ensures ValidId(s) <==> |s| > 0 && forall i :: 0 <= i < |s| ==> s[i] in UPPER || s[i] in LOWER || s[i] in DIGITS || s[i] in "_.-"
  {
    forall i | 0 <= i < |s| ensures IdChar(s[i]) <==> s[i] in UPPER || s[i] in LOWER || s[i] in DIGITS || s[i] in "_.-" {
      UpperMeans(s[i]);
      LowerMeans(s[i]);
      DigitMeans(s[i]);
      hide UPPER, LOWER, DIGITS;
    }
  }

  // The schemas in schema positions below a schema, at every depth.
  function Nested(s: Schema): set<Schema>
    decreases s, 1
  {
    if s.Node? then NestedAll(s.applicators) else {}
  }

  function NestedAll(aps: seq<Applicator>): set<Schema>
    decreases aps, 0
  {
    if aps == [] then {}
    else
      (match aps[0]
       case Map(_, entries) => NestedNamed(entries)
       case List(_, schemas) => NestedList(schemas)
       case Single(_, schema) => {schema} + Nested(schema)) + NestedAll(aps[1..])
  }

  function NestedList(ss: seq<Schema>): set<Schema>
    decreases ss, 0
  {
    if ss == [] then {} else {ss[0]} + Nested(ss[0]) + NestedList(ss[1..])
  }

  function NestedNamed(ns: seq<Named>): set<Schema>
    decreases ns, 0
  {
    if ns == [] then {} else {ns[0].schema} + Nested(ns[0].schema) + NestedNamed(ns[1..])
  }

  /******* The tool vocabulary *******/

  // One schema by itself, as a tool may have it.
  predicate InTool(s: Schema) {
    match s
    case Always(_) => true
    case NotASchema => false
    case Node(_, ref, _, _, assertions, annotations, _) =>
      && (forall a :: a in annotations ==> a in TOOL_ANNOTATIONS)
      && (forall i :: 0 <= i < |assertions| ==> assertions[i].keyword in TOOL_ASSERTIONS)
      && (ref == None || ValidId(ref.value))
  }

  // The vocabulary check goes through every schema position: it accepts exactly when each schema there is in order.
  lemma {:induction false} SupportedExact(s: Schema)
    ensures Supported(s) <==> InTool(s) && forall t :: t in Nested(s) ==> InTool(t)
    decreases s, 1
  {
    if s.Node? {
      SupportedAllExact(s.applicators);
      assert forall a :: a in s.assertions <==> exists i :: 0 <= i < |s.assertions| && s.assertions[i] == a;
    }
  }

  lemma {:induction false} SupportedAllExact(aps: seq<Applicator>)
    ensures SupportedAll(aps) <==> forall t :: t in NestedAll(aps) ==> InTool(t)
    decreases aps, 0
  {
    if aps != [] {
      hide InTool;
      match aps[0] {
        case Map(_, entries) => SupportedNamedExact(entries);
        case List(_, schemas) => SupportedListExact(schemas);
        case Single(_, schema) =>
          assert schema < aps[0];
          SupportedExact(schema);
      }
      SupportedAllExact(aps[1..]);
    }
  }

  lemma {:induction false} SupportedListExact(ss: seq<Schema>)
    ensures SupportedList(ss) <==> forall t :: t in NestedList(ss) ==> InTool(t)
    decreases ss, 0
  {
    if ss != [] {
      hide InTool;
      SupportedExact(ss[0]);
      SupportedListExact(ss[1..]);
    }
  }

  lemma {:induction false} SupportedNamedExact(ns: seq<Named>)
    ensures SupportedNamed(ns) <==> forall t :: t in NestedNamed(ns) ==> InTool(t)
    decreases ns, 0
  {
    if ns != [] {
      hide InTool;
      SupportedExact(ns[0].schema);
      SupportedNamedExact(ns[1..]);
    }
  }

  /******* The bundle profile *******/

  // The applicators of a bundle.
  predicate KindInBundle(a: Applicator) {
    match a
    case Map(kind, _) => kind != PatternProperties && kind != DependentSchemas
    case List(_, _) => true
    case Single(kind, _) => kind != PropertyNames && kind != If && kind != Then && kind != Else && kind != Contains
  }

  // One schema by itself, as a bundle may have it.
  predicate InBundle(s: Schema, ids: set<string>) {
    match s
    case Always(_) => true
    case NotASchema => false
    case Node(_, ref, _, _, assertions, annotations, applicators) =>
      && (forall a :: a in annotations ==> a in PROFILE_ANNOTATIONS)
      && (forall i :: 0 <= i < |assertions| ==> assertions[i].keyword in PROFILE_ASSERTIONS)
      && (ref == None || ref.value in ids)
      && (forall i :: 0 <= i < |applicators| ==> KindInBundle(applicators[i]))
  }

  // A schema below the resource.
  ghost predicate Inner(t: Schema, ids: set<string>) { InBundle(t, ids) && (t.Node? ==> t.id.None?) }

  // The walk of validate_bundle accepts exactly when every schema is in order by itself and only the resource at the
  // root has an identifier.
  lemma {:induction false} WalksExact(s: Schema, ids: set<string>, resource: bool)
    ensures Walks(s, ids, resource) <==>
      && InBundle(s, ids) && (s.Node? && s.id.Some? ==> resource)
      && forall t :: t in Nested(s) ==> Inner(t, ids)
    decreases s, 1
  {
    if s.Node? {
      hide Inner;
      WalksAllExact(s.applicators, ids);
      assert forall a :: a in s.assertions <==> exists i :: 0 <= i < |s.assertions| && s.assertions[i] == a;
    }
  }

  lemma {:induction false} WalksAllExact(aps: seq<Applicator>, ids: set<string>)
    ensures WalksAll(aps, ids) <==>
      (forall i :: 0 <= i < |aps| ==> KindInBundle(aps[i])) && forall t :: t in NestedAll(aps) ==> Inner(t, ids)
    decreases aps, 0
  {
    if aps != [] {
      hide InBundle;
      assert InProfile(aps[0]) <==> KindInBundle(aps[0]);
      assert (forall i :: 0 <= i < |aps| ==> KindInBundle(aps[i])) <==>
        KindInBundle(aps[0]) && forall i :: 0 <= i < |aps[1..]| ==> KindInBundle(aps[1..][i]) by
      {
        assert forall i :: 0 < i < |aps| ==> aps[i] == aps[1..][i - 1];
      }
      hide KindInBundle, InProfile;
      match aps[0] {
        case Map(_, entries) => WalksNamedExact(entries, ids);
        case List(_, schemas) => WalksListExact(schemas, ids);
        case Single(_, schema) =>
          assert schema < aps[0];
          WalksExact(schema, ids, false);
          assert Walks(schema, ids, false) <==> Inner(schema, ids) && forall t :: t in Nested(schema) ==> Inner(t, ids);
      }
      hide Inner;
      WalksAllExact(aps[1..], ids);
    }
  }

  lemma {:induction false} WalksListExact(ss: seq<Schema>, ids: set<string>)
    ensures WalksList(ss, ids) <==> forall t :: t in NestedList(ss) ==> Inner(t, ids)
    decreases ss, 0
  {
    if ss != [] {
      hide InBundle;
      WalksExact(ss[0], ids, false);
      assert Walks(ss[0], ids, false) <==> Inner(ss[0], ids) && forall t :: t in Nested(ss[0]) ==> Inner(t, ids);
      hide Inner;
      WalksListExact(ss[1..], ids);
    }
  }

  lemma {:induction false} WalksNamedExact(ns: seq<Named>, ids: set<string>)
    ensures WalksNamed(ns, ids) <==> forall t :: t in NestedNamed(ns) ==> Inner(t, ids)
    decreases ns, 0
  {
    if ns != [] {
      hide InBundle;
      WalksExact(ns[0].schema, ids, false);
      assert Walks(ns[0].schema, ids, false) <==> Inner(ns[0].schema, ids) && forall t :: t in Nested(ns[0].schema) ==> Inner(t, ids);
      hide Inner;
      WalksNamedExact(ns[1..], ids);
    }
  }

  /******* What a bundle may say and a tool may not *******/

  ghost predicate NoContent(s: Schema) {
    s.Node? ==> "contentEncoding" !in s.annotations && "contentMediaType" !in s.annotations
  }

  lemma ProfileGap()
    ensures PROFILE_ASSERTIONS <= TOOL_ASSERTIONS
    ensures PROFILE_ANNOTATIONS - TOOL_ANNOTATIONS == {"contentEncoding", "contentMediaType"}
  {
  }

  // A resource that validate_bundle accepts can go into a tool exactly when no schema in it describes the content of a
  // string: these are the only two keywords that a bundle may use and a tool may not.
  lemma WalkedSupported(s: Schema, ids: set<string>, resource: bool)
    requires Walks(s, ids, resource) && forall id :: id in ids ==> ValidId(id)
    ensures Supported(s) <==> NoContent(s) && forall t :: t in Nested(s) ==> NoContent(t)
  {
    hide Walks, Supported, Nested, ValidId, InTool, InBundle, NoContent;
    WalksExact(s, ids, resource);
    SupportedExact(s);
    OneSupported(s, ids);
    forall t | t in Nested(s) ensures InTool(t) <==> NoContent(t) {
      assert Inner(t, ids);
      OneSupported(t, ids);
    }
  }

  lemma OneSupported(s: Schema, ids: set<string>)
    requires InBundle(s, ids) && forall id :: id in ids ==> ValidId(id)
    ensures InTool(s) <==> NoContent(s)
  {
    hide ValidId;
    ProfileGap();
    if s.Node? {
      assert "contentEncoding" !in TOOL_ANNOTATIONS && "contentMediaType" !in TOOL_ANNOTATIONS;
    }
  }
}
