/**
 The converse of flattening: which requests of an HTTP operation can be made through its tool.
 */
module ToolRequests {
  import opened Basics
  import opened Unicode
  import opened JsonValues
  import opened Schemas
  import opened RefGraph
  import opened SchemaEval
  import opened ToolCompiler
  import opened ToolMeaning
  import opened ToolTheorem

  // The arguments that a call puts in its path and in its query, and its body if the operation has one.
  datatype Request = Request(path: seq<Member>, query: seq<Member>, body: Option<Json>)

  // A compiled operation, with ranks that certify the references of the bundle.
  ghost predicate Compilation(op: Operation, resources: Resources, c: Compiled, rank: map<string, nat>, bound: nat) {
    && IsCompiled(op, resources, c) && Ranked(Registry(resources, rank))
    && (forall id :: id in resources ==> resources[id].Node? && UniqueKeywords(resources[id].applicators))
    && (forall id :: id in c.closure && id in rank ==> rank[id] < bound)
  }

  // The argument answers to a parameter of this place and is valid for that parameter's resource.
  ghost predicate Argues(atoms: Atoms, registry: Scope, p: Parameter, place: string, m: Member) {
    p.location == place && p.name == m.key && ResourceValid(atoms, registry, p.schemaId, m.value)
  }

  // One side of a request, read off the operation alone: arguments of its own parameters, none twice, and every
  // required one.
  ghost predicate SideValid(atoms: Atoms, registry: Scope, op: Operation, place: string, ms: seq<Member>) {
    && Distinct(MemberNames(ms))
    && (forall m :: m in ms ==> exists p :: p in op.parameters && Argues(atoms, registry, p, place, m))
    && (forall p :: p in op.parameters && p.location == place && p.required ==> p.name in MemberNames(ms))
  }

  // A request that the operation accepts, whether or not a tool can make it.
  ghost predicate RequestValid(atoms: Atoms, registry: Scope, op: Operation, r: Request) {
    && SideValid(atoms, registry, op, "path", r.path) && SideValid(atoms, registry, op, "query", r.query)
    && (r.body.Some? <==> op.request.Some?)
    && (r.body.Some? ==> ResourceValid(atoms, registry, op.request.value, r.body.value))
    && (Flattened(op, registry.defs) && r.body.Some? && r.body.value.Obj? ==> Distinct(MemberNames(r.body.value.members)))
  }

  // The request that the plan rebuilds from the arguments.
  function Rebuilt(op: Operation, resources: Resources, bindings: map<Text, Binding>, ms: seq<Member>): Request
    requires RequestOk(op, resources)
  {
    Request(MembersAt(bindings, InPath, ms), MembersAt(bindings, InQuery, ms),
            if op.request.None? then None else Some(BodyOf(op, resources, bindings, ms)))
  }

  ghost predicate Makes(atoms: Atoms, op: Operation, resources: Resources, c: Compiled, rank: map<string, nat>, bound: nat,
                        ms: seq<Member>, r: Request)
    requires RequestOk(op, resources)
  {
    && Distinct(MemberNames(ms)) && Eval(atoms, Local(c.closure, resources, rank), bound, c.tool, Obj(ms)).Valid?
    && Rebuilt(op, resources, c.bindings, ms) == r
  }

  // The tool can make the request.
  ghost predicate Expressed(atoms: Atoms, op: Operation, resources: Resources, c: Compiled, rank: map<string, nat>, bound: nat, r: Request)
    requires RequestOk(op, resources)
  {
    exists ms :: Makes(atoms, op, resources, c, rank, bound, ms, r)
  }

  predicate Flattened(op: Operation, resources: Resources) {
    op.request.Some? && op.request.value in resources && IsObject(resources[op.request.value])
  }

  // Every member of a flattened body is one that its schema declares.
  ghost predicate BodyDeclared(op: Operation, resources: Resources, r: Request) {
    Flattened(op, resources) && r.body.Some? && r.body.value.Obj? ==>
      var ms := r.body.value.members;
      forall j :: 0 <= j < |ms| ==> ms[j].key in Names(Entries(resources[op.request.value]))
  }

  /******* Splitting an argument object *******/

  lemma DistinctHead(ms: seq<Member>)
    requires ms != []
    ensures Distinct(MemberNames(ms)) <==> ms[0].key !in MemberNames(ms[1..]) && Distinct(MemberNames(ms[1..]))
  {
    var names, rest := MemberNames(ms), MemberNames(ms[1..]);
    assert rest == names[1..];
    if ms[0].key !in rest && Distinct(rest) {
      forall i, j | 0 <= i < j < |names| ensures names[i] != names[j] {
        assert names[j] == rest[j - 1];
        assert i > 0 ==> names[i] == rest[i - 1];
      }
    }
  }

  lemma {:induction false} PlaceDistinct(bindings: map<Text, Binding>, place: Location, ms: seq<Member>)
    requires Distinct(MemberNames(ms))
    ensures Distinct(MemberNames(MembersAt(bindings, place, ms)))
  {
    if ms != [] {
      hide Distinct, MemberNames, Placed;
      DistinctHead(ms);
      PlaceDistinct(bindings, place, ms[1..]);
      var key, rest := ms[0].key, MembersAt(bindings, place, ms[1..]);
      NameIsMember(rest, key);
      if x :| x in rest && x.key == key {
        MemberAt(bindings, place, ms[1..], x);
        NameIsMember(ms[1..], key);
        assert false;
      }
      assert ([ms[0]] + rest)[1..] == rest;
      DistinctHead([ms[0]] + rest);
    }
  }

  lemma {:induction false} MergeDistinct(a: seq<Member>, b: seq<Member>)
    requires Distinct(MemberNames(a)) && Distinct(MemberNames(b))
    requires forall i, j :: 0 <= i < |a| && 0 <= j < |b| ==> a[i].key != b[j].key
    ensures Distinct(MemberNames(a + b))
  {
    var names := MemberNames(a + b);
    forall i, j | 0 <= i < j < |names| ensures names[i] != names[j] {
      if j < |a| {
        assert names[i] == MemberNames(a)[i] && names[j] == MemberNames(a)[j];
      } else if i >= |a| {
        assert names[i] == MemberNames(b)[i - |a|] && names[j] == MemberNames(b)[j - |a|];
      } else {
        assert names[i] == a[i].key && names[j] == b[j - |a|].key;
      }
    }
  }

  lemma NameAt(bindings: map<Text, Binding>, place: Location, ms: seq<Member>, key: Text)
    ensures key in MemberNames(MembersAt(bindings, place, ms)) <==> key in MemberNames(ms) && Placed(bindings, place, key)
  {
    hide Placed, MemberNames;
    var part := MembersAt(bindings, place, ms);
    NameIsMember(ms, key);
    NameIsMember(part, key);
    if x :| x in part && x.key == key {
      MemberAt(bindings, place, ms, x);
    }
    if x :| x in ms && x.key == key {
      MemberAt(bindings, place, ms, x);
    }
  }

  lemma {:induction false} RequiredParameter(ps: seq<Parameter>, x: Text)
    ensures x in RequiredParameters(ps) <==> exists p :: p in ps && p.required && p.name == x
  {
    if ps != [] {
      RequiredParameter(Front(ps), x);
      assert ps == Front(ps) + [Last(ps)];
    }
  }

  function Word(place: Location): string { if place == InPath then "path" else "query" }

  /******* Accepted arguments make valid requests *******/

  // What the plan takes for one side of the request is a valid side.
  lemma SideFromPlan(atoms: Atoms, registry: Scope, op: Operation, resources: Resources, c: Compiled, place: Location, ms: seq<Member>)
    requires IsCompiled(op, resources, c) && place != InBody
    requires Distinct(MemberNames(ms)) && PathQueryValid(atoms, registry, c.bindings, ms)
    requires forall x :: x in RequiredParameters(op.parameters) ==> x in MemberNames(ms)
    ensures SideValid(atoms, registry, op, Word(place), MembersAt(c.bindings, place, ms))
  {
    hide ResourceValid, IsCompiled, Distinct, MemberNames;
    var part := MembersAt(c.bindings, place, ms);
    PlaceDistinct(c.bindings, place, ms);
    PlanPlaces(op, resources, c);
    forall m | m in part ensures exists p :: p in op.parameters && Argues(atoms, registry, p, Word(place), m) {
      MemberAt(c.bindings, place, ms, m);
      var p :| p in op.parameters && p.location == Word(place) && p.name == m.key;
      assert Argues(atoms, registry, p, Word(place), m);
    }
    forall p | p in op.parameters && p.location == Word(place) && p.required ensures p.name in MemberNames(part) {
      RequiredParameter(op.parameters, p.name);
      NameAt(c.bindings, place, ms, p.name);
    }
  }

  lemma AcceptedRebuilds(atoms: Atoms, op: Operation, resources: Resources, c: Compiled, rank: map<string, nat>, bound: nat, ms: seq<Member>)
    requires Compilation(op, resources, c, rank, bound) && Distinct(MemberNames(ms))
    requires Eval(atoms, Local(c.closure, resources, rank), bound, c.tool, Obj(ms)).Valid?
    ensures var r := Rebuilt(op, resources, c.bindings, ms);
      RequestValid(atoms, Registry(resources, rank), op, r) && BodyDeclared(op, resources, r) && PathFilled(op, r)
  {
    hide Eval, Ranked, ResourceValid, PathQueryValid, SideValid, MembersAt, Plan, BodyEntries, Distinct, MemberNames, RequestOk, ParametersOk, PathOk, Complete;
    hide PathFilled;
    var m, registry := c.bindings, Registry(resources, rank);
    FlatteningPreservesMeaning(atoms, op, resources, c, rank, bound, Obj(ms));
    SideFromPlan(atoms, registry, op, resources, c, InPath, ms);
    SideFromPlan(atoms, registry, op, resources, c, InQuery, ms);
    if op.request.Some? && Flattened(op, resources) {
      RebuiltDeclared(op, resources, c, ms);
      PlaceDistinct(m, InBody, ms);
      assert BodyOf(op, resources, m, ms) == Obj(MembersAt(m, InBody, ms));
    }
    SidesFillPath(atoms, registry, op, resources, Rebuilt(op, resources, m, ms));
  }

  // Every field of the path template is given exactly once, and nothing else is in the path.
  ghost predicate PathFilled(op: Operation, r: Request) {
    && op.pathFields.Some? && Distinct(MemberNames(r.path))
    && forall f :: f in MemberNames(r.path) <==> f in op.pathFields.value
  }

  lemma SidesFillPath(atoms: Atoms, registry: Scope, op: Operation, resources: Resources, r: Request)
    requires Acceptable(op, resources) && RequestValid(atoms, registry, op, r)
    ensures PathFilled(op, r)
  {
    hide ResourceValid, Distinct, MemberNames, RequestOk, ParametersOk;
    forall f ensures f in MemberNames(r.path) <==> f in op.pathFields.value {
      PathNamed(op.parameters, f);
      assert f in op.pathFields.value <==> f in (set g | g in op.pathFields.value);
      NameIsMember(r.path, f);
      if x :| x in r.path && x.key == f {
        var p :| p in op.parameters && Argues(atoms, registry, p, "path", x);
      }
      if p :| p in op.parameters && p.location == "path" && p.name == f {
        ParameterAdmitted(op.parameters, resources, p);
      }
    }
  }

  lemma RebuiltDeclared(op: Operation, resources: Resources, c: Compiled, ms: seq<Member>)
    requires IsCompiled(op, resources, c) && Flattened(op, resources)
    ensures var bs := MembersAt(c.bindings, InBody, ms);
      forall j :: 0 <= j < |bs| ==> bs[j].key in Names(Entries(resources[op.request.value]))
  {
    hide Names, IsCompiled, Entries;
    PlanPlaces(op, resources, c);
    var bs := MembersAt(c.bindings, InBody, ms);
    forall j | 0 <= j < |bs| ensures bs[j].key in Names(Entries(resources[op.request.value])) {
      MemberAt(c.bindings, InBody, ms, bs[j]);
    }
  }

  /******* Valid requests come from accepted arguments *******/

  lemma ObjectOnly(atoms: Atoms, scope: Scope, bound: nat, body: Schema, v: Json)
    requires IsObject(body) && Eval(atoms, scope, bound, body, v).Valid?
    ensures v.Obj?
  {
    hide EvalAll, PartsAccept, PartsEvaluate, UnevaluatedPass;
    NodeEval(atoms, scope, bound, body, v);
  }

  // The body part of the arguments that carry a request.
  function BodyArguments(op: Operation, resources: Resources, r: Request): seq<Member> {
    if r.body.None? then []
    else if Flattened(op, resources) then Members(r.body.value)
    else [Member(BODY, r.body.value)]
  }

  function Arguments(op: Operation, resources: Resources, r: Request): seq<Member> {
    r.path + r.query + BodyArguments(op, resources, r)
  }

  lemma NamesMerge(a: seq<Member>, b: seq<Member>, x: Text)
    ensures x in MemberNames(a + b) <==> x in MemberNames(a) || x in MemberNames(b)
  {
    NameIsMember(a, x);
    NameIsMember(b, x);
    NameIsMember(a + b, x);
  }

  // A valid side is what the plan puts in that place.
  lemma SidePlaced(atoms: Atoms, registry: Scope, op: Operation, resources: Resources, c: Compiled, place: Location, ms: seq<Member>)
    requires IsCompiled(op, resources, c) && place != InBody && SideValid(atoms, registry, op, Word(place), ms)
    ensures AllPlaced(c.bindings, place, ms) && PathQueryValid(atoms, registry, c.bindings, ms)
  {
    hide ResourceValid, IsCompiled, Distinct, MemberNames;
    PlanPlaces(op, resources, c);
    forall j | 0 <= j < |ms|
      ensures Placed(c.bindings, place, ms[j].key) && ResourceValid(atoms, registry, c.bindings[ms[j].key].schemaId, ms[j].value)
    {
      assert ms[j] in ms;
      var p :| p in op.parameters && Argues(atoms, registry, p, Word(place), ms[j]);
    }
  }

  // The body of a valid request, as arguments: in their place, none twice, with all required ones.
  lemma BodyPlaced(atoms: Atoms, op: Operation, resources: Resources, c: Compiled, rank: map<string, nat>, bound: nat, r: Request)
    requires Compilation(op, resources, c, rank, bound)
    requires RequestValid(atoms, Registry(resources, rank), op, r) && BodyDeclared(op, resources, r)
    ensures var body := BodyArguments(op, resources, r);
      && AllPlaced(c.bindings, InBody, body) && Distinct(MemberNames(body))
      && (forall x :: x in RequiredNames(op, resources) ==> x in RequiredParameters(op.parameters) || x in MemberNames(body))
      && (Flattened(op, resources) ==> r.body == Some(Obj(body)))
  {
    hide Eval, Ranked, SideValid, Names, MemberNames, PropertiesValid, ExtrasAccepted, Plan, Complete, ParametersOk, PathOk;
    PlanPlaces(op, resources, c);
    var body := BodyArguments(op, resources, r);
    if r.body.Some? {
      var request := op.request.value;
      var schema := resources[request];
      if Flattened(op, resources) {
        ObjectOnly(atoms, Registry(resources, rank), rank[request], schema, r.body.value);
        BodyAccepts(atoms, Registry(resources, rank), rank[request], schema, ParameterNames(op.parameters), body);
      } else {
        OneName(r.body.value);
        assert TakenByBody(op, resources, BODY);
      }
    } else {
      assert MemberNames(body) == [];
    }
  }

  lemma OneName(v: Json)
    ensures MemberNames([Member(BODY, v)]) == [BODY]
  {
  }

  // Parts in different places share no name.
  lemma PlacesApart(bindings: map<Text, Binding>, a: seq<Member>, b: seq<Member>)
    requires Distinct(MemberNames(a)) && Distinct(MemberNames(b))
    requires forall x, y :: x in a && y in b ==> x.key in bindings && y.key in bindings && bindings[x.key].location != bindings[y.key].location
    ensures Distinct(MemberNames(a + b))
  {
    hide Distinct, MemberNames;
    forall i, j | 0 <= i < |a| && 0 <= j < |b| ensures a[i].key != b[j].key {
      assert a[i] in a && b[j] in b;
    }
    MergeDistinct(a, b);
  }

  lemma PathQueryMerge(atoms: Atoms, registry: Scope, bindings: map<Text, Binding>, a: seq<Member>, b: seq<Member>)
    requires PathQueryValid(atoms, registry, bindings, a) && PathQueryValid(atoms, registry, bindings, b)
    ensures PathQueryValid(atoms, registry, bindings, a + b)
  {
    hide ResourceValid;
    var ms := a + b;
    forall j | 0 <= j < |ms| && ms[j].key in bindings && bindings[ms[j].key].location != InBody
      ensures ResourceValid(atoms, registry, bindings[ms[j].key].schemaId, ms[j].value)
    {
      assert j < |a| ==> ms[j] == a[j];
      assert j >= |a| ==> ms[j] == b[j - |a|];
    }
  }

  // What the three parts make together.
  lemma Merged(atoms: Atoms, registry: Scope, bindings: map<Text, Binding>, path: seq<Member>, query: seq<Member>, body: seq<Member>)
    requires AllPlaced(bindings, InPath, path) && AllPlaced(bindings, InQuery, query) && AllPlaced(bindings, InBody, body)
    requires Distinct(MemberNames(path)) && Distinct(MemberNames(query)) && Distinct(MemberNames(body))
    requires PathQueryValid(atoms, registry, bindings, path) && PathQueryValid(atoms, registry, bindings, query)
    ensures Distinct(MemberNames(path + query + body)) && PathQueryValid(atoms, registry, bindings, path + query + body)
    ensures forall j :: 0 <= j < |path + query + body| ==> (path + query + body)[j].key in bindings
  {
    hide ResourceValid, Distinct, MemberNames;
    PlacesApart(bindings, path, query);
    PlacesApart(bindings, path + query, body);
    PathQueryMerge(atoms, registry, bindings, path, query);
    PathQueryMerge(atoms, registry, bindings, path + query, body);
  }

  lemma RequiredCarried(atoms: Atoms, registry: Scope, op: Operation, resources: Resources, r: Request, x: Text)
    requires Acceptable(op, resources) && RequestValid(atoms, registry, op, r) && x in RequiredParameters(op.parameters)
    ensures x in MemberNames(r.path) || x in MemberNames(r.query)
  {
    hide ResourceValid, Distinct, MemberNames, RequestOk, PathOk, ParametersOk;
    RequiredParameter(op.parameters, x);
    var p :| p in op.parameters && p.required && p.name == x;
    ParameterAdmitted(op.parameters, resources, p);
  }

  // The arguments that carry a valid request are split into its own parts, and nothing required is missing.
  lemma ArgumentsSplit(atoms: Atoms, op: Operation, resources: Resources, c: Compiled, rank: map<string, nat>, bound: nat, r: Request)
    requires Compilation(op, resources, c, rank, bound)
    requires RequestValid(atoms, Registry(resources, rank), op, r) && BodyDeclared(op, resources, r)
    ensures var ms := Arguments(op, resources, r);
      && Distinct(MemberNames(ms)) && PathQueryValid(atoms, Registry(resources, rank), c.bindings, ms)
      && (forall j :: 0 <= j < |ms| ==> ms[j].key in c.bindings)
      && (forall x :: x in RequiredNames(op, resources) ==> x in MemberNames(ms))
      && Rebuilt(op, resources, c.bindings, ms) == r
  {
    var body := BodyArguments(op, resources, r);
    BodyPlaced(atoms, op, resources, c, rank, bound, r);
    hide Eval, Ranked, ResourceValid, PathQueryValid, MembersAt, AllPlaced, Plan, BodyEntries, Distinct, MemberNames, RequestOk, ParametersOk, PathOk, Complete;
    hide RequiredNames, RequiredParameters, BodyArguments, BodyDeclared, Rebuilt;
    var m, registry, ms := c.bindings, Registry(resources, rank), Arguments(op, resources, r);
    SidePlaced(atoms, registry, op, resources, c, InPath, r.path);
    SidePlaced(atoms, registry, op, resources, c, InQuery, r.query);
    Merged(atoms, registry, m, r.path, r.query, body);
    MergeThenSplit(m, r.path, r.query, body);
    RebuiltIs(op, resources, m, r);
    forall x | x in RequiredNames(op, resources) ensures x in MemberNames(ms) {
      NamesMerge(r.path + r.query, body, x);
      NamesMerge(r.path, r.query, x);
      if x in RequiredParameters(op.parameters) {
        RequiredCarried(atoms, registry, op, resources, r, x);
      }
    }
  }

  lemma Carries(atoms: Atoms, op: Operation, resources: Resources, c: Compiled, rank: map<string, nat>, bound: nat, r: Request)
    requires Compilation(op, resources, c, rank, bound)
    requires RequestValid(atoms, Registry(resources, rank), op, r) && BodyDeclared(op, resources, r)
    ensures Makes(atoms, op, resources, c, rank, bound, Arguments(op, resources, r), r)
  {
    hide Eval, Ranked, ResourceValid, PathQueryValid, MembersAt, Arguments, BodyOf, Distinct, MemberNames, IsCompiled, SideValid, RequiredNames, BodyDeclared;
    CompiledFrom(op, resources, c, rank, bound);
    ArgumentsSplit(atoms, op, resources, c, rank, bound, r);
    FlatteningPreservesMeaning(atoms, op, resources, c, rank, bound, Obj(Arguments(op, resources, r)));
  }

  lemma RebuiltIs(op: Operation, resources: Resources, m: map<Text, Binding>, r: Request)
    requires RequestOk(op, resources) && (r.body.Some? <==> op.request.Some?)
    requires var ms := Arguments(op, resources, r);
      && Distinct(MemberNames(ms)) && MembersAt(m, InPath, ms) == r.path && MembersAt(m, InQuery, ms) == r.query
      && MembersAt(m, InBody, ms) == BodyArguments(op, resources, r)
    requires Flattened(op, resources) ==> r.body == Some(Obj(BodyArguments(op, resources, r)))
    ensures Rebuilt(op, resources, m, Arguments(op, resources, r)) == r
  {
    hide MembersAt, ObjectBodyOk, MemberNames, Distinct;
    if r.body.Some? && !Flattened(op, resources) {
      ValueAtIs(Arguments(op, resources, r), BODY, |r.path + r.query|);
    }
  }

  // Exactly the valid requests whose body holds declared members only can be made through the tool.
  lemma RequestsExpressed(atoms: Atoms, op: Operation, resources: Resources, c: Compiled, rank: map<string, nat>, bound: nat, r: Request)
    requires Compilation(op, resources, c, rank, bound)
    ensures Expressed(atoms, op, resources, c, rank, bound, r) <==>
      RequestValid(atoms, Registry(resources, rank), op, r) && BodyDeclared(op, resources, r)
  {
    hide Eval, Compilation, RequestValid, BodyDeclared, Rebuilt, Arguments, Distinct;
    assert IsCompiled(op, resources, c) by { CompiledFrom(op, resources, c, rank, bound); }
    if Expressed(atoms, op, resources, c, rank, bound, r) {
      var ms :| Makes(atoms, op, resources, c, rank, bound, ms, r);
      AcceptedRebuilds(atoms, op, resources, c, rank, bound, ms);
    }
    if RequestValid(atoms, Registry(resources, rank), op, r) && BodyDeclared(op, resources, r) {
      Carries(atoms, op, resources, c, rank, bound, r);
    }
  }

  lemma CompiledFrom(op: Operation, resources: Resources, c: Compiled, rank: map<string, nat>, bound: nat)
    requires Compilation(op, resources, c, rank, bound)
    ensures IsCompiled(op, resources, c) && RequestOk(op, resources)
  {
  }

  /******* When every valid request can be made *******/

  // The condition on the body schema that a caller can check: nothing but declared members is admitted.
  predicate RefusesExtras(body: Schema) {
    body.Node? && var extra := FindSchema(body.applicators, Additional);
    extra == None || extra == Some(Always(false))
  }

  lemma EveryValidRequest(atoms: Atoms, op: Operation, resources: Resources, c: Compiled, rank: map<string, nat>, bound: nat, r: Request)
    requires Compilation(op, resources, c, rank, bound)
    requires Flattened(op, resources) ==> RefusesExtras(resources[op.request.value])
    ensures Expressed(atoms, op, resources, c, rank, bound, r) <==>
            RequestValid(atoms, Registry(resources, rank), op, r)
  {
    hide Eval, Ranked, SideValid, IsCompiled, Names;
    CompiledFrom(op, resources, c, rank, bound);
    RequestsExpressed(atoms, op, resources, c, rank, bound, r);
    if RequestValid(atoms, Registry(resources, rank), op, r) && Flattened(op, resources) && r.body.value.Obj? {
      DeclaredUnless(atoms, op, resources, c, rank, bound, r);
      forall v ensures !AcceptsExtra(atoms, Registry(resources, rank), rank[op.request.value], resources[op.request.value], v) {
        FalseRefuses(atoms, Registry(resources, rank), rank[op.request.value], v);
      }
    }
  }

  // A valid body has only declared members, unless its schema accepts some other value.
  lemma DeclaredUnless(atoms: Atoms, op: Operation, resources: Resources, c: Compiled, rank: map<string, nat>, bound: nat, r: Request)
    requires Compilation(op, resources, c, rank, bound) && Flattened(op, resources) && op.request.value in rank
    requires RequestValid(atoms, Registry(resources, rank), op, r)
    ensures BodyDeclared(op, resources, r) ||
      exists v :: AcceptsExtra(atoms, Registry(resources, rank), rank[op.request.value], resources[op.request.value], v)
  {
    hide Eval, Ranked, SideValid, Names, PropertiesValid, ParametersOk, PathOk, Complete, Plan, AcceptsExtra;
    if r.body.value.Obj? {
      var body, ms := resources[op.request.value], r.body.value.members;
      BodyAccepts(atoms, Registry(resources, rank), rank[op.request.value], body, ParameterNames(op.parameters), ms);
      if j :| 0 <= j < |ms| && ms[j].key !in Names(Entries(body)) {
        assert AcceptsExtra(atoms, Registry(resources, rank), rank[op.request.value], body, ms[j].value);
      }
    }
  }

  lemma {:induction false} FreshName(names: seq<Text>) returns (key: Text)
    ensures key != [] && key !in names && forall i :: 0 <= i < |names| ==> |names[i]| < |key|
  {
    if names == [] {
      key := [0];
    } else {
      var longer := FreshName(names[1..]);
      key := longer + names[0];
      forall i | 0 <= i < |names| ensures |names[i]| < |key| {
        assert i > 0 ==> names[i] == names[1..][i - 1];
      }
    }
  }

  function WithExtra(r: Request, key: Text, v: Json): Request
    requires r.body.Some? && r.body.value.Obj?
  {
    r.(body := Some(Obj(r.body.value.members + [Member(key, v)])))
  }

  // A member that the schema does not declare, added to a valid request: the request stays valid exactly when
  // additionalProperties accepts the value, and no arguments of the tool can make it.
  lemma ExtraIsLost(atoms: Atoms, op: Operation, resources: Resources, c: Compiled, rank: map<string, nat>, bound: nat,
                    r: Request, key: Text, v: Json)
    requires Compilation(op, resources, c, rank, bound) && Flattened(op, resources)
    requires RequestValid(atoms, Registry(resources, rank), op, r) && r.body.value.Obj?
    requires key !in MemberNames(r.body.value.members) && key !in Names(Entries(resources[op.request.value]))
    ensures RequestValid(atoms, Registry(resources, rank), op, WithExtra(r, key, v)) <==>
      AcceptsExtra(atoms, Registry(resources, rank), rank[op.request.value], resources[op.request.value], v)
    ensures !Expressed(atoms, op, resources, c, rank, bound, WithExtra(r, key, v))
  {
    hide Eval, Ranked, SideValid, Names, MemberNames, Entries, Distinct, IsCompiled, AcceptsExtra;
    CompiledFrom(op, resources, c, rank, bound);
    var ms, body := r.body.value.members, resources[op.request.value];
    var more := ms + [Member(key, v)];
    assert more[|ms|].key == key;
    RequestsExpressed(atoms, op, resources, c, rank, bound, WithExtra(r, key, v));
    ExtraAccepted(atoms, Registry(resources, rank), rank[op.request.value], body, op, resources, ms, key, v);
    OneMoreName(ms, Member(key, v));
  }

  lemma OneMoreName(ms: seq<Member>, x: Member)
    requires Distinct(MemberNames(ms)) && x.key !in MemberNames(ms)
    ensures Distinct(MemberNames(ms + [x]))
  {
    assert MemberNames(ms + [x]) == MemberNames(ms) + [x.key];
  }

  lemma ExtraAccepted(atoms: Atoms, scope: Scope, bound: nat, body: Schema, op: Operation, resources: Resources,
                      ms: seq<Member>, key: Text, v: Json)
    requires RequestOk(op, resources) && Flattened(op, resources) && body == resources[op.request.value]
    requires UniqueKeywords(body.applicators) && Eval(atoms, scope, bound, body, Obj(ms)).Valid? && key !in Names(Entries(body))
    ensures Eval(atoms, scope, bound, body, Obj(ms + [Member(key, v)])).Valid? <==> AcceptsExtra(atoms, scope, bound, body, v)
  {
    hide Eval, Names, Entries, AcceptsExtra, ObjectBodyOk, MemberNames;
    var x := Member(key, v);
    var more := ms + [x];
    BodyAccepts(atoms, scope, bound, body, ParameterNames(op.parameters), ms);
    BodyAccepts(atoms, scope, bound, body, ParameterNames(op.parameters), more);
    forall i | 0 <= i < |BodyRequired(body)| ensures BodyRequired(body)[i] in MemberNames(more) {
      NamesMerge(ms, [x], BodyRequired(body)[i]);
    }
    var entries := Entries(body);
    forall i, j | 0 <= i < |entries| && 0 <= j < |more| && more[j].key == entries[i].name
      ensures Eval(atoms, scope, bound, entries[i].schema, more[j].value).Valid?
    {
      assert Names(entries)[i] == entries[i].name;
      assert j < |ms| && more[j] == ms[j];
    }
    forall j | 0 <= j < |ms| ensures more[j] == ms[j] {}
    assert more[|ms|] == x;
  }

  // An operation with a valid request: all of them can be made through the tool exactly when the body schema
  // accepts no value under a name that it does not declare.
  lemma AllExpressed(atoms: Atoms, op: Operation, resources: Resources, c: Compiled, rank: map<string, nat>, bound: nat, some: Request)
    requires Compilation(op, resources, c, rank, bound) && Flattened(op, resources)
    requires RequestValid(atoms, Registry(resources, rank), op, some)
    ensures op.request.value in rank
    ensures (forall r :: RequestValid(atoms, Registry(resources, rank), op, r) ==>
                         Expressed(atoms, op, resources, c, rank, bound, r)) <==>
      forall v :: !AcceptsExtra(atoms, Registry(resources, rank), rank[op.request.value], resources[op.request.value], v)
  {
    hide Eval, IsCompiled, Expressed, SideValid, AcceptsExtra, WithExtra;
    CompiledFrom(op, resources, c, rank, bound);
    var registry, body := Registry(resources, rank), resources[op.request.value];
    if v :| AcceptsExtra(atoms, registry, rank[op.request.value], body, v) {
      hide RequestValid;
      ValidBodyIsObject(atoms, op, resources, c, rank, some);
      var key := FreshName(MemberNames(some.body.value.members) + Names(Entries(body)));
      ExtraIsLost(atoms, op, resources, c, rank, bound, some, key, v);
    } else {
      forall r | RequestValid(atoms, registry, op, r) ensures Expressed(atoms, op, resources, c, rank, bound, r) {
        DeclaredUnless(atoms, op, resources, c, rank, bound, r);
        RequestsExpressed(atoms, op, resources, c, rank, bound, r);
      }
    }
  }

  lemma ValidBodyIsObject(atoms: Atoms, op: Operation, resources: Resources, c: Compiled, rank: map<string, nat>, r: Request)
    requires Flattened(op, resources) && RequestValid(atoms, Registry(resources, rank), op, r)
    ensures r.body.Some? && r.body.value.Obj?
  {
    hide Eval, SideValid;
    ObjectOnly(atoms, Registry(resources, rank), rank[op.request.value], resources[op.request.value], r.body.value);
  }

  /******* A closed body that is open *******/

  const DECLARED: Text := [0x61]
  const UNDECLARED: Text := [0x62]

  // {"type": "object", "properties": {"a": true}, "additionalProperties": true, "unevaluatedProperties": false}
  const OPEN_BODY := EMPTY_NODE.(types := Some(One("object")), applicators := [
    Map(Properties, [Named(DECLARED, Always(true))]), Single(Additional, Always(true)), Single(Unevaluated, Always(false))])

  const OPEN_OPERATION := Operation([], Some([]), Some("request"))
  const OPEN_RESOURCES: Resources := map["request" := OPEN_BODY]

  lemma OpenBodyIsClosed()
    ensures Acceptable(OPEN_OPERATION, OPEN_RESOURCES) && UniqueKeywords(OPEN_BODY.applicators) && ClosedBody(OPEN_BODY)
    ensures FindSchema(OPEN_BODY.applicators, Additional) == Some(Always(true)) && UNDECLARED !in Names(Entries(OPEN_BODY))
  {
    var aps := OPEN_BODY.applicators;
    assert aps[1..] == [aps[1], aps[2]] && aps[1..][1..] == [aps[2]] && [aps[2]][1..] == [];
    assert FindSchema(aps[1..], Additional) == Some(Always(true)) && FindSchema([aps[2]], Unevaluated) == Some(Always(false));
    assert FindSchema(aps[1..], Unevaluated) == Some(Always(false));
    assert Names([Named(DECLARED, Always(true))]) == [DECLARED];
    var none: seq<Text> := [];
    assert (set f | f in none) == {};
    assert UNDECLARED[0] != DECLARED[0];
  }

  const OPEN_RANK: map<string, nat> := map["request" := 0]

  // validate_bundle accepts the bundle; the compiler takes the body for closed and flattens it.
  lemma OpenBodyCompiles() returns (c: Compiled)
    ensures BundleWalks(OPEN_RESOURCES) && RankFunction(ProfileGraph(OPEN_RESOURCES), OPEN_RANK)
    ensures Compilation(OPEN_OPERATION, OPEN_RESOURCES, c, OPEN_RANK, 0)
  {
    OpenBodyIsClosed();
    OpenBodyWalks();
    OpenBodyTables();
    hide Walks, Refs, ProfileRefs, Rewrite, Acceptable, RequiredNames, Roots, ToolEntries, Plan, OPEN_BODY, UniqueKeywords, FindSchema, Names;
    hide ProfileGraph, ClosedBody;
    BundleRanked(OPEN_RESOURCES, OPEN_RANK);
    var op, resources := OPEN_OPERATION, OPEN_RESOURCES;
    NothingReachable(Graphs(resources));
    hide Ranked, RankFunction, Graphs;
    assert Enumerates([], RequiredNames(op, resources));
    c := Compiled(ToolNode(ToolEntries(op, resources), [], DefsEntries([], resources)), Plan(op, resources), []);
  }

  lemma NothingReachable(g: Graph)
    ensures Complete(g, {}, [])
  {
  }

  // What the compiler collects from this body.
  lemma OpenBodyTables()
    ensures RequestOk(OPEN_OPERATION, OPEN_RESOURCES) && IsObject(OPEN_BODY)
    ensures Roots(OPEN_OPERATION, OPEN_RESOURCES) == {} && RequiredNames(OPEN_OPERATION, OPEN_RESOURCES) == {}
  {
    OpenBodyIsClosed();
    hide ObjectBodyOk, Acceptable;
    assert NamedRefs([Named(DECLARED, Always(true))]) == {} by {
      assert [Named(DECLARED, Always(true))][1..] == [];
    }
    assert BodyRequired(OPEN_BODY) == [];
  }

  lemma OpenBodyWalks()
    ensures BundleWalks(OPEN_RESOURCES) && RankFunction(ProfileGraph(OPEN_RESOURCES), OPEN_RANK)
  {
    var ids := {"request"};
    assert OPEN_RESOURCES.Keys == ids && OPEN_RESOURCES["request"] == OPEN_BODY;
    assert ValidId("request");
    OpenApplicatorsWalk(ids);
    assert Walks(OPEN_BODY, ids, true);
    OpenBodyRefs();
    CollectorsAgree(OPEN_BODY, ids, true);
    hide Walks, Refs, ProfileRefs, OPEN_BODY;
    assert forall id :: id in OPEN_RESOURCES ==> id == "request";
    assert ProfileGraph(OPEN_RESOURCES) == map["request" := {}];
  }

  lemma OpenApplicatorsWalk(ids: set<string>)
    ensures WalksAll(OPEN_BODY.applicators, ids)
  {
    var aps := OPEN_BODY.applicators;
    assert aps[1..] == [aps[1], aps[2]] && aps[1..][1..] == [aps[2]] && [aps[2]][1..] == [];
    assert [Named(DECLARED, Always(true))][1..] == [];
    assert WalksNamed(aps[0].entries, ids) by {
      assert WalksNamed([], ids);
    }
    assert WalksAll([aps[2]], ids) by {
      assert WalksAll([], ids);
    }
    assert WalksAll(aps[1..], ids);
  }

  lemma OpenBodyRefs()
    ensures Refs(OPEN_BODY) == {}
  {
    var aps := OPEN_BODY.applicators;
    assert aps[1..] == [aps[1], aps[2]] && aps[1..][1..] == [aps[2]] && [aps[2]][1..] == [];
    assert [Named(DECLARED, Always(true))][1..] == [];
    assert ApplicatorRefs([aps[2]]) == {};
    assert ApplicatorRefs(aps[1..]) == {};
    assert NamedRefs(aps[0].entries) == {};
    assert ApplicatorRefs(aps) == {};
  }

  // The operation accepts the body {"b": null}, and the tool cannot send it.
  lemma OpenBodyHappens(atoms: Atoms, c: Compiled)
    requires Compilation(OPEN_OPERATION, OPEN_RESOURCES, c, OPEN_RANK, 0)
    ensures var r := Request([], [], Some(Obj([Member(UNDECLARED, Null)])));
      && RequestValid(atoms, Registry(OPEN_RESOURCES, OPEN_RANK), OPEN_OPERATION, r)
      && !Expressed(atoms, OPEN_OPERATION, OPEN_RESOURCES, c, OPEN_RANK, 0, r)
  {
    OpenBodyIsClosed();
    hide Eval, Compilation, Names, ResourceValid, AcceptsExtra, Expressed, PathQueryValid;
    var op, resources, registry := OPEN_OPERATION, OPEN_RESOURCES, Registry(OPEN_RESOURCES, OPEN_RANK);
    CompiledFrom(op, resources, c, OPEN_RANK, 0);
    EmptyRequest(atoms, c);
    ExtraIsLost(atoms, op, resources, c, OPEN_RANK, 0, Request([], [], Some(Obj([]))), UNDECLARED, Null);
    AlwaysAccepts(atoms, registry, 0);
    assert [] + [Member(UNDECLARED, Null)] == [Member(UNDECLARED, Null)];
  }

  lemma AlwaysAccepts(atoms: Atoms, scope: Scope, bound: nat)
    ensures AcceptsExtra(atoms, scope, bound, OPEN_BODY, Null)
  {
    OpenBodyIsClosed();
  }

  lemma EmptyRequest(atoms: Atoms, c: Compiled)
    requires Compilation(OPEN_OPERATION, OPEN_RESOURCES, c, OPEN_RANK, 0)
    ensures RequestValid(atoms, Registry(OPEN_RESOURCES, OPEN_RANK), OPEN_OPERATION, Request([], [], Some(Obj([]))))
  {
    OpenBodyIsClosed();
    hide Eval, Names, MemberNames, ParametersOk, PathOk, Ranked, IsCompiled, FindSchema, UniqueKeywords, AcceptsExtra, ClosedBody;
    BodyAccepts(atoms, Registry(OPEN_RESOURCES, OPEN_RANK), 0, OPEN_BODY, {}, []);
  }
}
