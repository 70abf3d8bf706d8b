/**
 The main result on the tool compiler, and what validate_bundle guarantees to it.
 */
module ToolTheorem {
  import opened Basics
  import opened Unicode
  import opened JsonValues
  import opened Schemas
  import opened RefGraph
  import opened SchemaEval
  import opened ToolCompiler
  import opened ToolMeaning

  /******* The two scopes *******/

  function Registry(resources: Resources, rank: map<string, nat>): Scope { Scope("", resources, rank) }

  // The $defs of a compiled tool.
  function Local(order: seq<string>, resources: Resources, rank: map<string, nat>): Scope {
    Scope(LOCAL, map id | id in order && id in resources :: Rewrite(resources[id]), rank)
  }

  lemma LocalIsCopy(resources: Resources, rank: map<string, nat>, roots: set<string>, order: seq<string>)
    requires Complete(Graphs(resources), roots, order)
    ensures LocalCopy(Registry(resources, rank), Local(order, resources, rank))
    ensures forall id :: id in order ==> id in resources
  {
    hide Refs, Rewrite, Supported;
    var g, local := Graphs(resources), Local(order, resources, rank);
    forall id | id in local.defs ensures Refs(resources[id]) <= local.defs.Keys {
      var i :| 0 <= i < |order| && order[i] == id;
      assert order[i] in g;
      forall y | y in Refs(resources[id]) ensures y in local.defs {
        assert y in g[order[i]];
        assert y in order[..i];
        var k :| 0 <= k < i && order[k] == y;
        assert order[k] in g;
      }
    }
  }

  ghost predicate OnlyDefinition(defs: seq<Named>, id: string, schema: Schema) {
    exists i :: 0 <= i < |defs| && defs[i] == Named(ToText(id), schema) &&
      forall k :: 0 <= k < |defs| && defs[k].name == ToText(id) ==> k == i
  }

  // The only entry of the tool's $defs under an identifier is the definition that its rebased reference leads to.
  lemma LocalReferenceResolves(op: Operation, resources: Resources, c: Compiled, rank: map<string, nat>, id: string)
    requires IsCompiled(op, resources, c) && id in c.closure && ValidId(id)
    ensures Tokens((LOCAL + id)[1..]) == ["", "$defs", id] && Unescape(id) == id && '%' !in LOCAL + id
    ensures var defs, local := DefsEntries(c.closure, resources), Local(c.closure, resources, rank);
      && Target(local, LOCAL + id) == Some(id)
      && c.tool.Node? && Map(Defs, defs) in c.tool.applicators
      && OnlyDefinition(defs, id, local.defs[id])
  {
    hide Rewrite, Tokens, Unescape, RequestOk, ParametersOk, PathOk, Plan, Graphs, ToolEntries, RequiredNames, OnlyDefinition, Complete, DefsEntries, ToText;
    LocalReferencePointsIntoDefs(id);
    LocalIsCopy(resources, rank, Roots(op, resources), c.closure);
    var defs, local := DefsEntries(c.closure, resources), Local(c.closure, resources, rank);
    LocalTarget(Registry(resources, rank), local, id);
    DefinedOnce(resources, rank, Roots(op, resources), c.closure, id);
    var required :| Enumerates(required, RequiredNames(op, resources)) &&
      c.tool == ToolNode(ToolEntries(op, resources), required, defs);
    assert c.tool.applicators[2] == Map(Defs, defs);
  }

  lemma DefinedOnce(resources: Resources, rank: map<string, nat>, roots: set<string>, order: seq<string>, id: string)
    requires Complete(Graphs(resources), roots, order) && id in order && forall i :: 0 <= i < |order| ==> order[i] in resources
    ensures DefsEntries(order, resources) != []
    ensures OnlyDefinition(DefsEntries(order, resources), id, Local(order, resources, rank).defs[id])
  {
    hide Rewrite, Graphs, Reachable, ToText;
    var defs := DefsEntries(order, resources);
    var i :| 0 <= i < |order| && order[i] == id;
    assert defs[i] == Named(ToText(id), Local(order, resources, rank).defs[id]);
    forall k | 0 <= k < |defs| && defs[k].name == ToText(id) ensures k == i {
      ToTextInjective(order[k], id);
    }
  }

  lemma ToTextInjective(a: string, b: string)
    requires ToText(a) == ToText(b)
    ensures a == b
  {
    forall i | 0 <= i < |a| ensures a[i] == b[i] {
      assert ToText(a)[i] == ToText(b)[i];
    }
  }

  /******* What an operation accepts *******/

  ghost predicate ResourceValid(atoms: Atoms, registry: Scope, id: string, v: Json) {
    id in registry.defs && id in registry.rank && Eval(atoms, registry, registry.rank[id], registry.defs[id], v).Valid?
  }

  // The plan puts the argument `key` in `place`.
  predicate Placed(bindings: map<Text, Binding>, place: Location, key: Text) {
    key in bindings && bindings[key].location == place
  }

  // The arguments that the plan puts in one place.
  function MembersAt(bindings: map<Text, Binding>, place: Location, ms: seq<Member>): seq<Member> {
    if ms == [] then []
    else if Placed(bindings, place, ms[0].key) then [ms[0]] + MembersAt(bindings, place, ms[1..])
    else MembersAt(bindings, place, ms[1..])
  }

  function ValueAt(ms: seq<Member>, key: Text): Json {
    if ms == [] then Null else if ms[0].key == key then ms[0].value else ValueAt(ms[1..], key)
  }

  // The request body that the plan rebuilds from the arguments.
  function BodyOf(op: Operation, resources: Resources, bindings: map<Text, Binding>, ms: seq<Member>): Json
    requires op.request.Some? && op.request.value in resources
  {
    if IsObject(resources[op.request.value]) then Obj(MembersAt(bindings, InBody, ms)) else ValueAt(ms, BODY)
  }

  // Every argument is bound, every required one is present, every path and query argument is valid for its
  // own resource, and the rebuilt body is valid for the request resource.
  ghost predicate OperationAccepts(atoms: Atoms, registry: Scope, op: Operation, resources: Resources,
                                   bindings: map<Text, Binding>, ms: seq<Member>)
    requires RequestOk(op, resources)
  {
    && (forall j :: 0 <= j < |ms| ==> ms[j].key in bindings)
    && (forall x :: x in RequiredNames(op, resources) ==> x in MemberNames(ms))
    && PathQueryValid(atoms, registry, bindings, ms)
    && BodyValid(atoms, registry, op, resources, bindings, ms)
  }

  ghost predicate PathQueryValid(atoms: Atoms, registry: Scope, bindings: map<Text, Binding>, ms: seq<Member>) {
    forall j :: 0 <= j < |ms| && ms[j].key in bindings && bindings[ms[j].key].location != InBody ==>
      ResourceValid(atoms, registry, bindings[ms[j].key].schemaId, ms[j].value)
  }

  ghost predicate BodyValid(atoms: Atoms, registry: Scope, op: Operation, resources: Resources,
                            bindings: map<Text, Binding>, ms: seq<Member>)
    requires RequestOk(op, resources)
  {
    op.request.Some? ==> ResourceValid(atoms, registry, op.request.value, BodyOf(op, resources, bindings, ms))
  }

  /******* The binding plan *******/

  lemma {:induction false} ParametersBound(ps: seq<Parameter>, resources: Resources, i: nat)
    requires ParametersOk(ps, resources) && i < |ps|
    ensures ps[i].name in BindParameters(ps) && BindParameters(ps)[ps[i].name] == ParameterBinding(ps[i])
    ensures i < |ParameterEntries(ps)| && ParameterEntries(ps)[i] == Named(ps[i].name, RefTo(ps[i].schemaId))
    ensures |ParameterEntries(ps)| == |ps| && ps[i].name in ParameterNames(ps) && ps[i].schemaId in ParameterIds(ps)
  {
    if i == |ps| - 1 {
      ParameterCount(Front(ps));
    } else {
      ParametersBound(Front(ps), resources, i);
      assert Front(ps)[i] == ps[i];
    }
  }

  lemma {:induction false} ParameterCount(ps: seq<Parameter>)
    ensures |ParameterEntries(ps)| == |ps|
  {
    if ps != [] {
      ParameterCount(Front(ps));
    }
  }

  lemma {:induction false} BoundIsParameter(ps: seq<Parameter>, key: Text)
    requires key in BindParameters(ps)
    ensures exists i :: 0 <= i < |ps| && ps[i].name == key && BindParameters(ps)[key] == ParameterBinding(ps[i])
  {
    if Last(ps).name == key {
      assert ps[|ps| - 1].name == key;
    } else {
      BoundIsParameter(Front(ps), key);
      var i :| 0 <= i < |Front(ps)| && Front(ps)[i].name == key && BindParameters(Front(ps))[key] == ParameterBinding(Front(ps)[i]);
      assert ps[i] == Front(ps)[i];
    }
  }

  lemma NamesSnoc(es: seq<Named>, key: Text)
    requires es != []
    ensures key in Names(es) <==> key in Names(Front(es)) || key == Last(es).name
  {
    hide Names;
    var n := |es| - 1;
    assert Names(es)[n] == Last(es).name;
    assert Names(Front(es)) == Names(es)[..n];
    if key in Names(Front(es)) {
      var i :| 0 <= i < n && Names(Front(es))[i] == key;
      assert Names(es)[i] == key;
    }
  }

  lemma {:induction false} BodyBound(es: seq<Named>, request: string, m: map<Text, Binding>, key: Text)
    ensures key in Names(es) ==> key in BindBody(es, request, m) && BindBody(es, request, m)[key] == Binding(InBody, key, request, None)
    ensures key !in Names(es) ==> (key in BindBody(es, request, m) <==> key in m)
    ensures key !in Names(es) && key in m ==> BindBody(es, request, m)[key] == m[key]
  {
    if es != [] {
      hide Names;
      BodyBound(Front(es), request, m, key);
      NamesSnoc(es, key);
    }
  }

  lemma BodyEntryNames(op: Operation, resources: Resources, key: Text)
    requires RequestOk(op, resources) && key in Names(BodyEntries(op, resources))
    ensures key !in ParameterNames(op.parameters) && op.request.Some?
  {
    var i :| 0 <= i < |Names(BodyEntries(op, resources))| && Names(BodyEntries(op, resources))[i] == key;
    var body := resources[op.request.value];
    if IsObject(body) {
      assert Names(BodyEntries(op, resources)) == Names(Entries(body));
      assert Entries(body)[i].name == key;
    }
  }

  // A name is bound to the body exactly when it is a body entry, and otherwise to its parameter.
  lemma PlanAt(op: Operation, resources: Resources, key: Text)
    requires RequestOk(op, resources)
    ensures var m := Plan(op, resources); var body := key in Names(BodyEntries(op, resources));
      && (key in m <==> body || key in BindParameters(op.parameters))
      && (key in m ==> (m[key].location == InBody <==> body))
      && (key in m && !body ==> m[key] == BindParameters(op.parameters)[key])
  {
    if op.request.Some? {
      BodyBound(BodyEntries(op, resources), op.request.value, BindParameters(op.parameters), key);
    }
    if key in BindParameters(op.parameters) {
      BoundIsParameter(op.parameters, key);
    }
  }

  lemma NamesConcat(a: seq<Named>, b: seq<Named>, key: Text)
    ensures key in Names(a + b) <==> key in Names(a) || key in Names(b)
  {
    hide Names;
    assert Names(a + b) == Names(a) + Names(b);
  }

  lemma {:induction false} EntryNames(ps: seq<Parameter>, key: Text)
    ensures key in Names(ParameterEntries(ps)) <==> key in BindParameters(ps)
  {
    if ps != [] {
      EntryNames(Front(ps), key);
      var last := [Named(Last(ps).name, RefTo(Last(ps).schemaId))];
      NamesConcat(ParameterEntries(Front(ps)), last, key);
      assert key in Names(last) <==> key == Last(ps).name by { assert Names(last)[0] == Last(ps).name; }
    }
  }

  // The names of the tool are the bound names.
  lemma ToolNamesBound(op: Operation, resources: Resources, key: Text)
    requires RequestOk(op, resources)
    ensures key in Names(ToolEntries(op, resources)) <==> key in Plan(op, resources)
  {
    NamesConcat(ParameterEntries(op.parameters), BodyEntries(op, resources), key);
    EntryNames(op.parameters, key);
    PlanAt(op, resources, key);
  }

  /******* References in the tool *******/

  lemma RefToEval(atoms: Atoms, registry: Scope, local: Scope, bound: nat, id: string, v: Json)
    requires LocalCopy(registry, local) && id in local.defs && id in registry.rank && registry.rank[id] < bound
    ensures Eval(atoms, local, bound, RefTo(id), v).Valid? <==> ResourceValid(atoms, registry, id, v)
  {
    hide Eval, EvalAll, Rewrite, Refs;
    LocalTarget(registry, local, id);
    RewritePreserves(atoms, registry, local, registry.rank[id], registry.defs[id], v);
    NodeEval(atoms, local, bound, RefTo(id), v);
    AllStep(atoms, local, bound, Map(Properties, []), [], v);
    var target := EvalRef(atoms, local, bound, Some(LOCAL + id), v);
    assert target == Some(Eval(atoms, registry, registry.rank[id], registry.defs[id], v));
    OnlyTarget(atoms, target, v);
  }

  lemma OnlyTarget(atoms: Atoms, target: Option<Verdict>, v: Json)
    requires target.Some?
    ensures Judge(atoms, None, None, [], target, [], v).Valid? <==> target.value.Valid?
  {
  }

  lemma PropertiesSplit(atoms: Atoms, scope: Scope, bound: nat, a: seq<Named>, b: seq<Named>, ms: seq<Member>)
    ensures PropertiesValid(atoms, scope, bound, a + b, ms) <==>
            PropertiesValid(atoms, scope, bound, a, ms) && PropertiesValid(atoms, scope, bound, b, ms)
  {
    hide Eval;
    if PropertiesValid(atoms, scope, bound, a + b, ms) {
      forall i, j | 0 <= i < |a| && 0 <= j < |ms| && ms[j].key == a[i].name
        ensures Eval(atoms, scope, bound, a[i].schema, ms[j].value).Valid?
      {
        assert (a + b)[i] == a[i];
      }
      forall i, j | 0 <= i < |b| && 0 <= j < |ms| && ms[j].key == b[i].name
        ensures Eval(atoms, scope, bound, b[i].schema, ms[j].value).Valid?
      {
        assert (a + b)[|a| + i] == b[i];
      }
    }
  }

  // Path and query arguments.
  lemma ParametersMeaning(atoms: Atoms, registry: Scope, local: Scope, bound: nat, op: Operation, resources: Resources, ms: seq<Member>)
    requires Acceptable(op, resources) && LocalCopy(registry, local)
    requires forall id :: id in ParameterIds(op.parameters) ==> id in local.defs && id in registry.rank && registry.rank[id] < bound
    ensures PropertiesValid(atoms, local, bound, ParameterEntries(op.parameters), ms) <==>
            PathQueryValid(atoms, registry, Plan(op, resources), ms)
  {
    hide Eval, LocalCopy, ResourceValid;
    var m, ps := Plan(op, resources), op.parameters;
    var es := ParameterEntries(ps);
    if PropertiesValid(atoms, local, bound, es, ms) {
      forall j | 0 <= j < |ms| && ms[j].key in m && m[ms[j].key].location != InBody
        ensures ResourceValid(atoms, registry, m[ms[j].key].schemaId, ms[j].value)
      {
        PlanAt(op, resources, ms[j].key);
        BoundIsParameter(ps, ms[j].key);
        var i :| 0 <= i < |ps| && ps[i].name == ms[j].key && BindParameters(ps)[ms[j].key] == ParameterBinding(ps[i]);
        ParametersBound(ps, resources, i);
        assert es[i] == Named(ps[i].name, RefTo(ps[i].schemaId));
        RefToEval(atoms, registry, local, bound, ps[i].schemaId, ms[j].value);
      }
    }
    if PathQueryValid(atoms, registry, m, ms) {
      ParameterCount(ps);
      forall i, j | 0 <= i < |es| && 0 <= j < |ms| && ms[j].key == es[i].name
        ensures Eval(atoms, local, bound, es[i].schema, ms[j].value).Valid?
      {
        ParametersBound(ps, resources, i);
        var key := ms[j].key;
        PlanAt(op, resources, key);
        if key in Names(BodyEntries(op, resources)) {
          BodyEntryNames(op, resources, key);
          assert false;
        }
        assert m[ms[j].key] == ParameterBinding(ps[i]);
        RefToEval(atoms, registry, local, bound, ps[i].schemaId, ms[j].value);
      }
    }
  }

  /******* The body *******/

  lemma {:induction false} MemberAt(bindings: map<Text, Binding>, place: Location, ms: seq<Member>, x: Member)
    ensures x in MembersAt(bindings, place, ms) <==> x in ms && Placed(bindings, place, x.key)
  {
    if ms != [] {
      hide Placed;
      MemberAt(bindings, place, ms[1..], x);
      assert ms == [ms[0]] + ms[1..];
    }
  }

  lemma NameIsMember(ms: seq<Member>, key: Text)
    ensures key in MemberNames(ms) <==> exists x :: x in ms && x.key == key
  {
    if key in MemberNames(ms) {
      var j :| 0 <= j < |ms| && MemberNames(ms)[j] == key;
      assert ms[j] in ms && ms[j].key == key;
    }
    if x :| x in ms && x.key == key {
      var j :| 0 <= j < |ms| && ms[j] == x;
      assert MemberNames(ms)[j] == key;
    }
  }

  // Only the members with a body name matter to the body's properties.
  lemma BodyFilter(atoms: Atoms, scope: Scope, bound: nat, entries: seq<Named>, bindings: map<Text, Binding>, ms: seq<Member>)
    requires forall i :: 0 <= i < |entries| ==> entries[i].name in bindings && bindings[entries[i].name].location == InBody
    ensures PropertiesValid(atoms, scope, bound, entries, ms) <==>
            PropertiesValid(atoms, scope, bound, entries, MembersAt(bindings, InBody, ms))
  {
    hide Eval;
    var bs := MembersAt(bindings, InBody, ms);
    if PropertiesValid(atoms, scope, bound, entries, ms) {
      forall i, k | 0 <= i < |entries| && 0 <= k < |bs| && bs[k].key == entries[i].name
        ensures Eval(atoms, scope, bound, entries[i].schema, bs[k].value).Valid?
      {
        MemberAt(bindings, InBody, ms, bs[k]);
        var j :| 0 <= j < |ms| && ms[j] == bs[k];
        assert ms[j].key == entries[i].name;
      }
    }
    if PropertiesValid(atoms, scope, bound, entries, bs) {
      forall i, j | 0 <= i < |entries| && 0 <= j < |ms| && ms[j].key == entries[i].name
        ensures Eval(atoms, scope, bound, entries[i].schema, ms[j].value).Valid?
      {
        MemberAt(bindings, InBody, ms, ms[j]);
        var k :| 0 <= k < |bs| && bs[k] == ms[j];
        assert bs[k].key == entries[i].name;
      }
    }
  }

  // Rewritten properties in the local scope mean what the originals mean in the registry, at any rank above theirs.
  lemma {:induction false} RewrittenProperties(atoms: Atoms, registry: Scope, local: Scope, bound: nat, rank: nat, entries: seq<Named>, ms: seq<Member>)
    requires LocalCopy(registry, local) && Ranked(registry) && NamedRefs(entries) <= local.defs.Keys
    requires Below(registry, NamedRefs(entries), bound) && Below(registry, NamedRefs(entries), rank)
    ensures PropertiesValid(atoms, local, bound, RewriteNamed(entries), ms) <==>
            PropertiesValid(atoms, registry, rank, entries, ms)
  {
    hide Eval, LocalCopy, Ranked, Rewrite;
    forall i, j | 0 <= i < |entries| && 0 <= j < |ms|
      ensures RewriteNamed(entries)[i].name == entries[i].name
      ensures Eval(atoms, local, bound, RewriteNamed(entries)[i].schema, ms[j].value) ==
              Eval(atoms, registry, rank, entries[i].schema, ms[j].value)
    {
      RewrittenAt(entries, i);
      RewritePreserves(atoms, registry, local, bound, entries[i].schema, ms[j].value);
      RankDoesNotMatter(atoms, registry, registry, bound, rank, entries[i].schema, ms[j].value);
    }
  }

  lemma ObjectBodyMeaning(atoms: Atoms, registry: Scope, local: Scope, bound: nat, op: Operation, resources: Resources, ms: seq<Member>)
    requires Acceptable(op, resources) && op.request.Some? && IsObject(resources[op.request.value])
    requires UniqueKeywords(resources[op.request.value].applicators)
    requires registry.defs == resources && registry.prefix == "" && LocalCopy(registry, local) && Ranked(registry)
    requires NamedRefs(Entries(resources[op.request.value])) <= local.defs.Keys
    requires Below(registry, NamedRefs(Entries(resources[op.request.value])), bound)
    requires forall x :: x in RequiredNames(op, resources) ==> x in MemberNames(ms)
    ensures PropertiesValid(atoms, local, bound, BodyEntries(op, resources), ms) <==>
            ResourceValid(atoms, registry, op.request.value, BodyOf(op, resources, Plan(op, resources), ms))
  {
    hide Eval, LocalCopy, Rewrite, PropertiesValid;
    var request, m := op.request.value, Plan(op, resources);
    var body := resources[request];
    var entries, bs, rank := Entries(body), MembersAt(m, InBody, ms), registry.rank[request];
    BodyRefsBelow(registry, body, rank);
    RewrittenProperties(atoms, registry, local, bound, rank, entries, ms);
    assert Names(BodyEntries(op, resources)) == Names(entries);
    forall i | 0 <= i < |entries| ensures entries[i].name in m && m[entries[i].name].location == InBody {
      assert Names(entries)[i] == entries[i].name;
      PlanAt(op, resources, entries[i].name);
    }
    BodyFilter(atoms, registry, rank, entries, m, ms);
    forall j | 0 <= j < |bs| ensures bs[j].key in Names(entries) {
      MemberAt(m, InBody, ms, bs[j]);
      PlanAt(op, resources, bs[j].key);
    }
    BodyAccepts(atoms, registry, rank, body, ParameterNames(op.parameters), bs);
    forall i | 0 <= i < |BodyRequired(body)| ensures BodyRequired(body)[i] in MemberNames(bs) {
      var x := BodyRequired(body)[i];
      assert x in RequiredNames(op, resources) && x in Names(entries);
      RequiredInBody(m, ms, x);
      PlanAt(op, resources, x);
    }
  }

  lemma RequiredInBody(bindings: map<Text, Binding>, ms: seq<Member>, x: Text)
    requires x in MemberNames(ms)
    ensures x in bindings && bindings[x].location == InBody ==> x in MemberNames(MembersAt(bindings, InBody, ms))
  {
    NameIsMember(ms, x);
    var e :| e in ms && e.key == x;
    MemberAt(bindings, InBody, ms, e);
    NameIsMember(MembersAt(bindings, InBody, ms), x);
  }

  lemma BodyRefsBelow(registry: Scope, body: Schema, rank: nat)
    requires body.Node? && Below(registry, Refs(body), rank)
    ensures Below(registry, NamedRefs(Entries(body)), rank)
  {
    EntriesRefsIncluded(body.applicators);
  }

  lemma {:induction false} EntriesRefsIncluded(aps: seq<Applicator>)
    ensures NamedRefs(FindEntries(aps)) <= ApplicatorRefs(aps)
  {
    if aps != [] {
      EntriesRefsIncluded(aps[1..]);
    }
  }

  lemma {:induction false} ValueAtIs(ms: seq<Member>, key: Text, j: nat)
    requires j < |ms| && ms[j].key == key && Distinct(MemberNames(ms))
    ensures ValueAt(ms, key) == ms[j].value
  {
    if j > 0 {
      assert MemberNames(ms)[0] != MemberNames(ms)[j];
      assert MemberNames(ms[1..]) == MemberNames(ms)[1..];
      ValueAtIs(ms[1..], key, j - 1);
    }
  }

  lemma WholeBodyMeaning(atoms: Atoms, registry: Scope, local: Scope, bound: nat, op: Operation, resources: Resources, ms: seq<Member>)
    requires Acceptable(op, resources) && op.request.Some? && !IsObject(resources[op.request.value])
    requires LocalCopy(registry, local) && Distinct(MemberNames(ms)) && BODY in MemberNames(ms)
    requires var id := op.request.value; id in local.defs && id in registry.rank && registry.rank[id] < bound
    ensures PropertiesValid(atoms, local, bound, BodyEntries(op, resources), ms) <==>
            ResourceValid(atoms, registry, op.request.value, ValueAt(ms, BODY))
  {
    hide Eval, LocalCopy, ResourceValid;
    var request := op.request.value;
    var es := BodyEntries(op, resources);
    var k :| 0 <= k < |ms| && MemberNames(ms)[k] == BODY;
    ValueAtIs(ms, BODY, k);
    RefToEval(atoms, registry, local, bound, request, ms[k].value);
    assert es[0] == Named(BODY, RefTo(request));
    forall j | 0 <= j < |ms| && ms[j].key == BODY ensures j == k {
      assert MemberNames(ms)[j] == MemberNames(ms)[k];
    }
  }

  /******* The theorem *******/

  // For every accepted operation and every argument, the tool schema accepts the argument exactly when it is an
  // object and the operation accepts the request rebuilt from it.
  lemma FlatteningPreservesMeaning(atoms: Atoms, op: Operation, resources: Resources, c: Compiled,
                                   rank: map<string, nat>, bound: nat, inst: Json)
    requires IsCompiled(op, resources, c) && Ranked(Registry(resources, rank))
    requires forall id :: id in resources ==> resources[id].Node? && UniqueKeywords(resources[id].applicators)
    requires forall id :: id in c.closure && id in rank ==> rank[id] < bound
    requires inst.Obj? ==> Distinct(MemberNames(inst.members))
    ensures Eval(atoms, Local(c.closure, resources, rank), bound, c.tool, inst).Valid? <==>
      inst.Obj? && OperationAccepts(atoms, Registry(resources, rank), op, resources, c.bindings, inst.members)
  {
    hide Eval, Rewrite, LocalCopy, Ranked, ResourceValid, PropertiesValid, BodyEntries, ParameterEntries, RequiredNames, Roots, Plan;
    hide PathQueryValid, BodyValid, Complete, ParametersOk, RequestOk, PathOk;
    var registry, local := Registry(resources, rank), Local(c.closure, resources, rank);
    var required :| Enumerates(required, RequiredNames(op, resources)) &&
      c.tool == ToolNode(ToolEntries(op, resources), required, DefsEntries(c.closure, resources));
    ToolAccepts(atoms, local, bound, ToolEntries(op, resources), required, DefsEntries(c.closure, resources), inst);
    if inst.Obj? {
      var ms := inst.members;
      LocalIsCopy(resources, rank, Roots(op, resources), c.closure);
      forall key ensures key in Names(ToolEntries(op, resources)) <==> key in c.bindings {
        ToolNamesBound(op, resources, key);
      }
      RequiredListed(required, RequiredNames(op, resources), MemberNames(ms));
      PropertiesSplit(atoms, local, bound, ParameterEntries(op.parameters), BodyEntries(op, resources), ms);
      if forall x :: x in RequiredNames(op, resources) ==> x in MemberNames(ms) {
        PartsMeaning(atoms, op, resources, c, rank, bound, ms);
      }
    }
  }

  lemma RequiredListed(required: seq<Text>, names: set<Text>, keys: seq<Text>)
    requires Enumerates(required, names)
    ensures (forall i :: 0 <= i < |required| ==> required[i] in keys) <==> (forall x :: x in names ==> x in keys)
  {
    if forall i :: 0 <= i < |required| ==> required[i] in keys {
      forall x | x in names ensures x in keys {
        assert x in required;
      }
    }
  }

  // The closure covers the roots, so every reference of the tool's own entries is local and below the bound.
  lemma RootsCovered(op: Operation, resources: Resources, c: Compiled, rank: map<string, nat>, bound: nat)
    requires IsCompiled(op, resources, c) && Ranked(Registry(resources, rank))
    requires forall id :: id in c.closure && id in rank ==> rank[id] < bound
    ensures forall id :: id in Roots(op, resources) ==>
      id in Local(c.closure, resources, rank).defs && id in rank && rank[id] < bound
    ensures Below(Registry(resources, rank), Roots(op, resources), bound)
  {
    hide Refs, Rewrite, Roots;
    var registry := Registry(resources, rank);
    forall id | id in Roots(op, resources)
      ensures id in Local(c.closure, resources, rank).defs && id in rank && rank[id] < bound && Target(registry, id) == Some(id)
    {
      RootReachable(Graphs(resources), Roots(op, resources), id);
      assert id in c.closure;
      assert id in registry.defs;
      assert id[..0] == "" && id[0..] == id;
    }
  }

  lemma PartsMeaning(atoms: Atoms, op: Operation, resources: Resources, c: Compiled, rank: map<string, nat>, bound: nat, ms: seq<Member>)
    requires IsCompiled(op, resources, c) && Ranked(Registry(resources, rank))
    requires forall id :: id in resources ==> resources[id].Node? && UniqueKeywords(resources[id].applicators)
    requires forall id :: id in c.closure && id in rank ==> rank[id] < bound
    requires Distinct(MemberNames(ms)) && forall x :: x in RequiredNames(op, resources) ==> x in MemberNames(ms)
    ensures var local, registry := Local(c.closure, resources, rank), Registry(resources, rank);
      && (PropertiesValid(atoms, local, bound, ParameterEntries(op.parameters), ms) <==>
          PathQueryValid(atoms, registry, c.bindings, ms))
      && (PropertiesValid(atoms, local, bound, BodyEntries(op, resources), ms) <==>
          BodyValid(atoms, registry, op, resources, c.bindings, ms))
  {
    hide Eval, Rewrite, LocalCopy, Ranked, ResourceValid, PropertiesValid, PathQueryValid, BodyValid, Refs, Below, Target;
    hide RequestOk, ParametersOk, PathOk, Complete, Plan, ParameterEntries, BodyEntries, RequiredNames, Roots;
    var local, registry := Local(c.closure, resources, rank), Registry(resources, rank);
    LocalIsCopy(resources, rank, Roots(op, resources), c.closure);
    RootsCovered(op, resources, c, rank, bound);
    ParameterRoots(op, resources);
    ParametersMeaning(atoms, registry, local, bound, op, resources, ms);
    BodyMeaning(atoms, registry, local, bound, op, resources, ms);
  }

  lemma ParameterRoots(op: Operation, resources: Resources)
    requires RequestOk(op, resources)
    ensures ParameterIds(op.parameters) <= Roots(op, resources)
  {
  }

  lemma BodyMeaning(atoms: Atoms, registry: Scope, local: Scope, bound: nat, op: Operation, resources: Resources, ms: seq<Member>)
    requires Acceptable(op, resources) && registry.defs == resources && LocalCopy(registry, local) && Ranked(registry)
    requires forall id :: id in resources ==> resources[id].Node? && UniqueKeywords(resources[id].applicators)
    requires forall id :: id in Roots(op, resources) ==> id in local.defs && id in registry.rank && registry.rank[id] < bound
    requires Below(registry, Roots(op, resources), bound)
    requires Distinct(MemberNames(ms)) && forall x :: x in RequiredNames(op, resources) ==> x in MemberNames(ms)
    ensures PropertiesValid(atoms, local, bound, BodyEntries(op, resources), ms) <==>
            BodyValid(atoms, registry, op, resources, Plan(op, resources), ms)
  {
    hide Eval, Rewrite, Ranked, ResourceValid, PropertiesValid, Below, Refs, NamedRefs, Entries, ObjectBodyOk, ParametersOk, Plan;
    if op.request.None? {
      NoPropertiesValid(atoms, local, bound, ms);
    } else if IsObject(resources[op.request.value]) {
      BelowSubset(registry, NamedRefs(Entries(resources[op.request.value])), Roots(op, resources), bound);
      ObjectBodyMeaning(atoms, registry, local, bound, op, resources, ms);
    } else {
      assert BODY in RequiredNames(op, resources);
      WholeBodyMeaning(atoms, registry, local, bound, op, resources, ms);
    }
  }

  lemma BelowSubset(scope: Scope, a: set<string>, b: set<string>, bound: nat)
    requires a <= b && Below(scope, b, bound)
    ensures Below(scope, a, bound)
  {
  }

  /******* What validate_bundle guarantees *******/

  // The part of validate_bundle that looks at the resources: every one passes the walk.
  ghost predicate BundleWalks(resources: Resources) {
    forall id :: id in resources ==> ValidId(id) && resources[id].Node? && Walks(resources[id], resources.Keys, true)
  }

  function ProfileGraph(resources: Resources): Graph { map id | id in resources :: ProfileRefs(resources[id]) }

  // The reference graph of an accepted bundle is closed, so checking it needs no test for a missing resource.
  lemma BundleGraphClosed(resources: Resources)
    requires BundleWalks(resources)
    ensures Closed(ProfileGraph(resources))
  {
    hide Refs, ProfileRefs, Walks;
    var g := ProfileGraph(resources);
    forall x, y | Edge(g, x, y) ensures y in g {
      CollectorsAgree(resources[x], resources.Keys, true);
    }
  }

  // An accepted bundle has ranks under which evaluation is well founded.
  lemma BundleRanked(resources: Resources, rank: map<string, nat>)
    requires BundleWalks(resources) && RankFunction(ProfileGraph(resources), rank)
    ensures Ranked(Registry(resources, rank))
  {
    hide Refs, ProfileRefs, Walks;
    var scope, g := Registry(resources, rank), ProfileGraph(resources);
    forall id | id in resources ensures id in rank && Below(scope, Refs(resources[id]), rank[id]) {
      CollectorsAgree(resources[id], resources.Keys, true);
      assert id in g;
      forall r | r in Refs(resources[id])
        ensures var t := Target(scope, r); t.Some? && t.value in rank && rank[t.value] < rank[id]
      {
        assert r[..0] == "" && r[0..] == r;
        assert r in g[id];
      }
    }
  }

  // A rank of the profile graph ranks the graph that the closure walks.
  lemma ProfileRankServes(resources: Resources, rank: map<string, nat>)
    requires BundleWalks(resources) && RankFunction(ProfileGraph(resources), rank)
    ensures RankFunction(Graphs(resources), rank)
  {
    hide Refs, ProfileRefs, Walks, Supported;
    var g, profile := Graphs(resources), ProfileGraph(resources);
    forall x | x in g ensures x in rank && forall y :: y in g[x] ==> y in rank && rank[y] < rank[x] {
      CollectorsAgree(resources[x], resources.Keys, true);
      assert x in profile && g[x] == profile[x];
    }
  }

  lemma ReachableKnown(resources: Resources, op: Operation, x: string)
    requires BundleWalks(resources) && Acceptable(op, resources) && Reachable(Graphs(resources), Roots(op, resources), x)
    ensures x in resources
  {
    hide Refs, Walks, Supported, Roots, RequestOk, ParametersOk, PathOk, Reachable;
    var g := Graphs(resources);
    LastStep(g, Roots(op, resources), x);
    if x in Roots(op, resources) {
      RootKnown(op, resources, x);
    } else {
      var y :| Edge(g, y, x);
      CollectorsAgree(resources[y], resources.Keys, true);
    }
  }

  // After validate_bundle, the closure of an acceptable operation never meets a cycle or an unknown identifier:
  // it fails exactly when a reachable resource uses a keyword outside the tool vocabulary.
  lemma BundleClosure(resources: Resources, op: Operation)
    requires BundleWalks(resources) && (exists rank :: RankFunction(ProfileGraph(resources), rank)) && Acceptable(op, resources)
    ensures var g, roots := Graphs(resources), Roots(op, resources);
      && !ReachableCycle(g, roots)
      && (forall x :: Reachable(g, roots, x) ==> x in resources)
      && (ReachableMissing(g, roots) <==> exists x :: Reachable(g, roots, x) && x in resources && !Supported(resources[x]))
  {
    hide Refs, ProfileRefs, BundleWalks, Supported, Roots, RequestOk, ParametersOk, PathOk, RankFunction, Reachable, Cycle, ProfileGraph;
    var g, roots := Graphs(resources), Roots(op, resources);
    var rank :| RankFunction(ProfileGraph(resources), rank);
    ProfileRankServes(resources, rank);
    forall p | Cycle(g, p) ensures false {
      NoRank(g);
    }
    forall x | Reachable(g, roots, x) ensures x in resources {
      ReachableKnown(resources, op, x);
    }
  }

  lemma RootKnown(op: Operation, resources: Resources, id: string)
    requires BundleWalks(resources) && Acceptable(op, resources) && id in Roots(op, resources)
    ensures id in resources
  {
    hide Walks;
    if id in ParameterIds(op.parameters) {
      ParameterKnown(op.parameters, resources, id);
    } else if id != op.request.value {
      var body := resources[op.request.value];
      CollectorsAgree(body, resources.Keys, true);
      EntriesRefsIncluded(body.applicators);
    }
  }

  lemma {:induction false} ParameterKnown(ps: seq<Parameter>, resources: Resources, id: string)
    requires ParametersOk(ps, resources) && id in ParameterIds(ps)
    ensures id in resources
  {
    if Last(ps).schemaId != id {
      ParameterKnown(Front(ps), resources, id);
    }
  }

  // Ranks of the profile graph, and a bound above them.
  ghost predicate Ranks(resources: Resources, rank: map<string, nat>, bound: nat) {
    RankFunction(ProfileGraph(resources), rank) && forall id :: id in rank ==> rank[id] < bound
  }

  lemma BoundAbove(rank: map<string, nat>, ids: set<string>) returns (bound: nat)
    requires ids <= rank.Keys
    ensures forall id :: id in ids ==> rank[id] < bound
  {
    bound := 0;
    var left := ids;
    while left != {}
      invariant left <= ids && forall id :: id in ids - left ==> rank[id] < bound
      decreases left
    {
      var id :| id in left;
      bound := bound + rank[id] + 1;
      left := left - {id};
    }
  }

  lemma CompiledRequest(op: Operation, resources: Resources, c: Compiled)
    requires IsCompiled(op, resources, c)
    ensures RequestOk(op, resources)
  {
  }

  // From an accepted bundle to the meaning of its tools: there are ranks to evaluate by, and whatever they are, the
  // tool accepts an argument exactly when the operation accepts the request rebuilt from it.
  lemma BundleToolMeaning(atoms: Atoms, op: Operation, resources: Resources, c: Compiled, inst: Json)
    requires BundleWalks(resources) && exists rank :: RankFunction(ProfileGraph(resources), rank)
    requires forall id :: id in resources ==> UniqueKeywords(resources[id].applicators)
    requires IsCompiled(op, resources, c) && (inst.Obj? ==> Distinct(MemberNames(inst.members)))
    ensures exists rank, bound :: Ranks(resources, rank, bound)
    ensures forall rank, bound :: Ranks(resources, rank, bound) ==>
      (Eval(atoms, Local(c.closure, resources, rank), bound, c.tool, inst).Valid? <==>
       inst.Obj? && OperationAccepts(atoms, Registry(resources, rank), op, resources, c.bindings, inst.members))
  {
    hide Eval, IsCompiled, OperationAccepts, Walks, RankFunction, ProfileGraph, UniqueKeywords, Distinct, MemberNames, Registry, Local;
    CompiledRequest(op, resources, c);
    var some :| RankFunction(ProfileGraph(resources), some);
    var above := BoundAbove(some, some.Keys);
    assert Ranks(resources, some, above);
    forall rank, bound | Ranks(resources, rank, bound)
      ensures Eval(atoms, Local(c.closure, resources, rank), bound, c.tool, inst).Valid? <==>
        inst.Obj? && OperationAccepts(atoms, Registry(resources, rank), op, resources, c.bindings, inst.members)
    {
      BundleRanked(resources, rank);
      FlatteningPreservesMeaning(atoms, op, resources, c, rank, bound, inst);
    }
  }

  /******* The plan is reversible *******/

  lemma {:induction false} PlaceConcat(bindings: map<Text, Binding>, place: Location, a: seq<Member>, b: seq<Member>)
    ensures MembersAt(bindings, place, a + b) == MembersAt(bindings, place, a) + MembersAt(bindings, place, b)
  {
    if a == [] {
      assert a + b == b;
    } else {
      hide Placed;
      assert (a + b)[0] == a[0] && (a + b)[1..] == a[1..] + b;
      PlaceConcat(bindings, place, a[1..], b);
      var x, p, q := a[0], MembersAt(bindings, place, a[1..]), MembersAt(bindings, place, b);
      assert [x] + (p + q) == ([x] + p) + q;
    }
  }

  lemma {:induction false} PlaceAll(bindings: map<Text, Binding>, place: Location, ms: seq<Member>, here: bool)
    requires forall j :: 0 <= j < |ms| ==> Placed(bindings, place, ms[j].key) == here
    ensures MembersAt(bindings, place, ms) == if here then ms else []
  {
    if ms != [] {
      hide Placed;
      PlaceAll(bindings, place, ms[1..], here);
      assert ms == [ms[0]] + ms[1..];
    }
  }

  ghost predicate AllPlaced(bindings: map<Text, Binding>, place: Location, ms: seq<Member>) {
    forall j :: 0 <= j < |ms| ==> Placed(bindings, place, ms[j].key)
  }

  // Splitting undoes merging: any path and query arguments and any body fields can be carried by one argument object.
  lemma MergeThenSplit(bindings: map<Text, Binding>, path: seq<Member>, query: seq<Member>, body: seq<Member>)
    requires AllPlaced(bindings, InPath, path) && AllPlaced(bindings, InQuery, query) && AllPlaced(bindings, InBody, body)
    ensures var ms := path + query + body;
      && MembersAt(bindings, InPath, ms) == path && MembersAt(bindings, InQuery, ms) == query
      && MembersAt(bindings, InBody, ms) == body
  {
    forall place ensures MembersAt(bindings, place, path + query + body) ==
      (if place == InPath then path else []) + (if place == InQuery then query else []) + (if place == InBody then body else [])
    {
      PlaceConcat(bindings, place, path + query, body);
      PlaceConcat(bindings, place, path, query);
      PlaceAll(bindings, place, path, place == InPath);
      PlaceAll(bindings, place, query, place == InQuery);
      PlaceAll(bindings, place, body, place == InBody);
    }
    assert path + [] + [] == path && [] + query + [] == query && [] + [] + body == body;
  }

  function Once(here: bool, m: Member): multiset<Member> { if here then multiset{m} else multiset{} }

  lemma PlaceHead(bindings: map<Text, Binding>, place: Location, ms: seq<Member>)
    requires ms != []
    ensures multiset(MembersAt(bindings, place, ms)) ==
      Once(Placed(bindings, place, ms[0].key), ms[0]) + multiset(MembersAt(bindings, place, ms[1..]))
  {
    hide Placed;
  }

  // A member in at most one of three places is counted at most once.
  lemma CountedOnce(m: Member, inPath: bool, inQuery: bool, inBody: bool, path: multiset<Member>, query: multiset<Member>,
                    body: multiset<Member>, ms: multiset<Member>)
    requires path + query + body <= ms && !(inPath && inQuery) && !(inPath && inBody) && !(inQuery && inBody)
    ensures var parts := (Once(inPath, m) + path) + (Once(inQuery, m) + query) + (Once(inBody, m) + body);
      && parts <= multiset{m} + ms
      && (path + query + body == ms && (inPath || inQuery || inBody) ==> parts == multiset{m} + ms)
  {
  }

  function PartsOf(bindings: map<Text, Binding>, ms: seq<Member>): multiset<Member> {
    multiset(MembersAt(bindings, InPath, ms)) + multiset(MembersAt(bindings, InQuery, ms)) + multiset(MembersAt(bindings, InBody, ms))
  }

  lemma PartsHead(bindings: map<Text, Binding>, ms: seq<Member>)
    requires ms != [] && PartsOf(bindings, ms[1..]) <= multiset(ms[1..])
    ensures PartsOf(bindings, ms) <= multiset(ms)
    ensures ms[0].key in bindings && PartsOf(bindings, ms[1..]) == multiset(ms[1..]) ==> PartsOf(bindings, ms) == multiset(ms)
  {
    hide MembersAt, Once;
    var m, rest := ms[0], ms[1..];
    assert multiset(ms) == multiset{m} + multiset(rest) by { assert ms == [m] + rest; }
    PlaceHead(bindings, InPath, ms);
    PlaceHead(bindings, InQuery, ms);
    PlaceHead(bindings, InBody, ms);
    CountedOnce(m, Placed(bindings, InPath, m.key), Placed(bindings, InQuery, m.key), Placed(bindings, InBody, m.key),
                multiset(MembersAt(bindings, InPath, rest)), multiset(MembersAt(bindings, InQuery, rest)),
                multiset(MembersAt(bindings, InBody, rest)), multiset(rest));
    assert m.key in bindings ==> bindings[m.key].location in {InPath, InQuery, InBody};
  }

  // Merging undoes splitting up to the order of members: no bound argument is lost and none is used twice.
  lemma {:induction false} SplitThenMerge(bindings: map<Text, Binding>, ms: seq<Member>)
    ensures PartsOf(bindings, ms) <= multiset(ms)
    ensures (forall j :: 0 <= j < |ms| ==> ms[j].key in bindings) ==> PartsOf(bindings, ms) == multiset(ms)
  {
    if ms != [] {
      hide PartsOf;
      SplitThenMerge(bindings, ms[1..]);
      PartsHead(bindings, ms);
      if forall j :: 0 <= j < |ms| ==> ms[j].key in bindings {
        forall j | 0 <= j < |ms[1..]| ensures ms[1..][j].key in bindings {
          assert ms[1..][j] == ms[j + 1];
        }
      }
    }
  }

  /******* What the plan holds *******/

  lemma {:induction false} PathNamed(ps: seq<Parameter>, key: Text)
    ensures key in PathNames(ps) <==> exists p :: p in ps && p.location == "path" && p.name == key
  {
    if ps != [] {
      PathNamed(Front(ps), key);
      assert ps == Front(ps) + [Last(ps)];
    }
  }

  lemma {:induction false} ParameterAdmitted(ps: seq<Parameter>, resources: Resources, p: Parameter)
    requires ParametersOk(ps, resources) && p in ps
    ensures p.location == "path" || p.location == "query"
    ensures p.location == "path" ==> p.required
  {
    if p != Last(ps) {
      assert ps == Front(ps) + [Last(ps)];
      ParameterAdmitted(Front(ps), resources, p);
    }
  }

  // The binding of a parameter, in the words of the operation.
  lemma ParameterPlace(op: Operation, resources: Resources, p: Parameter)
    requires Acceptable(op, resources) && p in op.parameters
    ensures p.name in Plan(op, resources) && p.name !in Names(BodyEntries(op, resources))
    ensures var b := Plan(op, resources)[p.name];
      && b.location == (if p.location == "path" then InPath else InQuery) && b.name == p.name && b.schemaId == p.schemaId
      && b.style == Some(if p.location == "path" then Style("simple", false, false) else Style("form", true, false))
  {
    hide Plan, BodyEntries, Names;
    ParameterAdmitted(op.parameters, resources, p);
    var i :| 0 <= i < |op.parameters| && op.parameters[i] == p;
    ParametersBound(op.parameters, resources, i);
    PlanAt(op, resources, p.name);
    if p.name in Names(BodyEntries(op, resources)) {
      BodyEntryNames(op, resources, p.name);
    }
  }

  lemma BodyPlace(op: Operation, resources: Resources, key: Text)
    requires RequestOk(op, resources) && key in Names(BodyEntries(op, resources))
    ensures op.request.Some? && key in Plan(op, resources)
    ensures Plan(op, resources)[key] == Binding(InBody, key, op.request.value, None)
  {
    hide BodyEntries, Names;
    BodyEntryNames(op, resources, key);
    BodyBound(BodyEntries(op, resources), op.request.value, BindParameters(op.parameters), key);
  }

  // A bound name belongs to the body or to a parameter.
  lemma BoundTo(op: Operation, resources: Resources, key: Text)
    requires Acceptable(op, resources) && key in Plan(op, resources)
    ensures key in Names(BodyEntries(op, resources)) || exists p :: p in op.parameters && p.name == key
  {
    hide Plan, BodyEntries, Names;
    PlanAt(op, resources, key);
    if key !in Names(BodyEntries(op, resources)) {
      BoundIsParameter(op.parameters, key);
    }
  }

  // The names that a body takes among the arguments.
  predicate TakenByBody(op: Operation, resources: Resources, key: Text) {
    op.request.Some? && op.request.value in resources &&
    if IsObject(resources[op.request.value]) then key in Names(Entries(resources[op.request.value])) else key == BODY
  }

  lemma BodyTakes(op: Operation, resources: Resources, key: Text)
    requires RequestOk(op, resources)
    ensures key in Names(BodyEntries(op, resources)) <==> TakenByBody(op, resources, key)
  {
    if op.request.Some? && !IsObject(resources[op.request.value]) {
      assert Names(BodyEntries(op, resources)) == [BODY];
    }
  }

  // Path arguments are written as they are, query arguments as name and value.
  function StyleAt(place: Location): Option<Style> {
    match place
    case InPath => Some(Style("simple", false, false))
    case InQuery => Some(Style("form", true, false))
    case InBody => None
  }

  // Every path field and nothing else goes to the path, every query parameter and nothing else to the query, the
  // body's own names and nothing else to the body; each under its own name and with the schema of its own parameter.
  lemma PlanPlaces(op: Operation, resources: Resources, c: Compiled)
    requires IsCompiled(op, resources, c)
    ensures op.pathFields.Some?
    ensures forall key :: Placed(c.bindings, InPath, key) <==> key in op.pathFields.value
    ensures forall key :: Placed(c.bindings, InPath, key) <==> exists p :: p in op.parameters && p.location == "path" && p.name == key
    ensures forall key :: Placed(c.bindings, InQuery, key) <==> exists p :: p in op.parameters && p.location == "query" && p.name == key
    ensures forall key :: Placed(c.bindings, InBody, key) <==> TakenByBody(op, resources, key)
    ensures forall key :: key in c.bindings ==> c.bindings[key].name == key
    ensures forall p :: p in op.parameters ==> p.name in c.bindings && c.bindings[p.name].schemaId == p.schemaId
    ensures forall key :: Placed(c.bindings, InBody, key) ==> op.request == Some(c.bindings[key].schemaId)
    ensures forall key :: key in c.bindings ==> c.bindings[key].style == StyleAt(c.bindings[key].location)
  {
    hide Plan, BodyEntries, TakenByBody, Complete, RequestOk, ParametersOk, Names;
    forall p | p in op.parameters
      ensures p.name in c.bindings && c.bindings[p.name].schemaId == p.schemaId && c.bindings[p.name].name == p.name
      ensures Placed(c.bindings, if p.location == "path" then InPath else InQuery, p.name)
      ensures c.bindings[p.name].style == Some(if p.location == "path" then Style("simple", false, false) else Style("form", true, false))
      ensures (p.location == "path" || p.location == "query") && !TakenByBody(op, resources, p.name)
    {
      ParameterPlace(op, resources, p);
      ParameterAdmitted(op.parameters, resources, p);
      BodyTakes(op, resources, p.name);
    }
    forall key
      ensures TakenByBody(op, resources, key) ==> key in c.bindings && op.request == Some(c.bindings[key].schemaId)
      ensures TakenByBody(op, resources, key) ==>
        c.bindings[key].location == InBody && c.bindings[key].name == key && c.bindings[key].style == None
      ensures key in c.bindings ==> TakenByBody(op, resources, key) || exists p :: p in op.parameters && p.name == key
      ensures key in op.pathFields.value <==> exists p :: p in op.parameters && p.location == "path" && p.name == key
    {
      BodyTakes(op, resources, key);
      if TakenByBody(op, resources, key) {
        BodyPlace(op, resources, key);
      }
      if key in c.bindings {
        BoundTo(op, resources, key);
      }
      PathNamed(op.parameters, key);
      assert key in op.pathFields.value <==> key in (set f | f in op.pathFields.value);
    }
  }

  /******* What the tool holds *******/

  // A schema in the tool answers to a schema of the bundle: the same keywords at every depth, and no identifier.
  ghost predicate Carried(s: Schema, t: Schema) { IsCopy(s, t) && NoIds(t) }

  // The properties of the tool: one reference for each parameter, and then the body.
  ghost predicate PropertiesOf(op: Operation, resources: Resources, es: seq<Named>)
    requires RequestOk(op, resources)
  {
    var n := |op.parameters|;
    && |es| >= n && (forall i :: 0 <= i < n ==> es[i].name == op.parameters[i].name && es[i].schema == Pointer(op.parameters[i].schemaId))
    && if op.request.None? then |es| == n
       else if IsObject(resources[op.request.value]) then
         var own := Entries(resources[op.request.value]);
         |es| == n + |own| && forall j :: 0 <= j < |own| ==> es[n + j].name == own[j].name && Carried(own[j].schema, es[n + j].schema)
       else |es| == n + 1 && es[n].name == [0x62, 0x6F, 0x64, 0x79] && es[n].schema == Pointer(op.request.value)
  }

  // {"$ref": "#/$defs/<id>"}
  function Pointer(id: string): Schema { Node(None, Some("#/$defs/" + id), None, None, [], {}, []) }

  // The definitions of the tool: a copy of every resource that it refers to, under its identifier.
  ghost predicate DefinitionsOf(resources: Resources, closure: seq<string>, defs: seq<Named>) {
    && |defs| == |closure|
    && forall i :: 0 <= i < |closure| ==>
         closure[i] in resources && defs[i].name == ToText(closure[i]) && Carried(resources[closure[i]], defs[i].schema)
  }

  ghost predicate ToolHas(op: Operation, resources: Resources, c: Compiled, es: seq<Named>, defs: seq<Named>)
    requires RequestOk(op, resources)
  {
    && PropertiesOf(op, resources, es) && DefinitionsOf(resources, c.closure, defs)
    && c.tool.Node? && c.tool.ref.None? && c.tool.types == Some(One("object")) && c.tool.assertions == []
    && c.tool.annotations == {"$schema"}
    && c.tool.applicators == [Map(Properties, es), Single(Additional, Always(false))] + (if c.closure == [] then [] else [Map(Defs, defs)])
  }

  lemma {:induction false} EntryOfParameter(ps: seq<Parameter>, i: nat)
    requires i < |ps|
    ensures |ParameterEntries(ps)| == |ps|
    ensures ParameterEntries(ps)[i] == Named(ps[i].name, Pointer(ps[i].schemaId))
  {
    ParameterCount(ps);
    if i < |ps| - 1 {
      EntryOfParameter(Front(ps), i);
      ParameterCount(Front(ps));
    } else {
      ParameterCount(Front(ps));
    }
  }

  lemma CarriedAll(own: seq<Named>, j: nat)
    requires j < |own|
    ensures var e := RewriteNamed(own)[j]; e.name == own[j].name && Carried(own[j].schema, e.schema)
  {
    hide IsCopy, NoIds, Rewrite;
    RewriteNamedAt(own, j);
    RewriteIsTheCopy(own[j].schema, Rewrite(own[j].schema));
  }

  lemma ToolProperties(op: Operation, resources: Resources)
    requires RequestOk(op, resources)
    ensures PropertiesOf(op, resources, ToolEntries(op, resources))
  {
    hide Entries, Carried, Names, ObjectBodyOk, RewriteNamed, ParameterEntries;
    var es, n := ToolEntries(op, resources), |op.parameters|;
    ParameterCount(op.parameters);
    forall i | 0 <= i < n ensures es[i] == Named(op.parameters[i].name, Pointer(op.parameters[i].schemaId)) {
      EntryOfParameter(op.parameters, i);
    }
    if op.request.Some? && IsObject(resources[op.request.value]) {
      var own := Entries(resources[op.request.value]);
      forall j | 0 <= j < |own| ensures es[n + j].name == own[j].name && Carried(own[j].schema, es[n + j].schema) {
        CarriedAll(own, j);
        assert es[n + j] == RewriteNamed(own)[j];
      }
    }
  }

  // The tool is the closed object whose properties and definitions are copies of the bundle's schemas, and no schema
  // in it carries an identifier: its references resolve within the tool.
  lemma ToolHolds(op: Operation, resources: Resources, c: Compiled)
    requires IsCompiled(op, resources, c)
    ensures NoIds(c.tool)
    ensures exists es, defs :: ToolHas(op, resources, c, es, defs)
  {
    hide ToolEntries, PropertiesOf, IsCopy, NoIds, RequestOk, ParametersOk, PathOk, Plan, Complete, RequiredNames;
    var es, defs := ToolEntries(op, resources), DefsEntries(c.closure, resources);
    ToolProperties(op, resources);
    forall i | 0 <= i < |c.closure| ensures Carried(resources[c.closure[i]], defs[i].schema) {
      RewriteIsTheCopy(resources[c.closure[i]], defs[i].schema);
    }
    assert ToolHas(op, resources, c, es, defs);
    ToolHasNoIds(op, resources, c, es, defs);
  }

  lemma ToolHasNoIds(op: Operation, resources: Resources, c: Compiled, es: seq<Named>, defs: seq<Named>)
    requires RequestOk(op, resources) && ToolHas(op, resources, c, es, defs) && c.tool.id.None?
    ensures NoIds(c.tool)
  {
    hide IsCopy, ObjectBodyOk, Entries;
    var n := |op.parameters|;
    forall j | 0 <= j < |es| ensures NoIds(es[j].schema) {
      if j < n {
        assert es[j].schema == Pointer(op.parameters[j].schemaId);
      } else if op.request.Some? && IsObject(resources[op.request.value]) {
        var own, k := Entries(resources[op.request.value]), j - n;
        assert Carried(own[k].schema, es[n + k].schema);
      }
    }
    assert NoIdsIn(Map(Properties, es)) && NoIdsIn(Single(Additional, Always(false))) && NoIdsIn(Map(Defs, defs));
  }
}
