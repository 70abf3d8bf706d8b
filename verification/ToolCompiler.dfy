/**
 _closed_tool_schema of scripts/contracts/generate.py: an HTTP operation and a bundle of schema
 resources become one closed object schema and a binding plan.
 */
module ToolCompiler {
  import opened Basics
  import opened Unicode
  import opened Schemas
  import opened RefGraph

  datatype Location = InPath | InQuery | InBody

  // `location` is what the manifest says; only "path" and "query" are accepted.
  datatype Parameter = Parameter(location: string, name: Text, schemaId: string, required: bool)

  // `pathFields` are the names in braces of the path template, if every brace belongs to one.
  datatype Operation = Operation(parameters: seq<Parameter>, pathFields: Option<seq<Text>>, request: Option<string>)

  // How a path or query argument is written into its place.
  datatype Style = Style(form: string, explode: bool, allowReserved: bool)

  datatype Binding = Binding(location: Location, name: Text, schemaId: string, style: Option<Style>)

  datatype Compiled = Compiled(tool: Schema, bindings: map<Text, Binding>, closure: seq<string>)

  type Resources = map<string, Schema>

  const BODY: Text := [0x62, 0x6F, 0x64, 0x79]

  const EMPTY_NODE := Node(None, None, None, None, [], {}, [])

  // {"not": {}}
  const NOT_ANYTHING := EMPTY_NODE.(applicators := [Single(Not, EMPTY_NODE)])

  function RefTo(id: string): Schema { EMPTY_NODE.(ref := Some(LOCAL + id)) }

  // The references of every resource that _schema_refs can read.
  function Graphs(resources: Resources): Graph {
    map id | id in resources && Supported(resources[id]) :: Refs(resources[id])
  }

  /******* What the code tests *******/

  predicate SimpleType(s: Schema) {
    s.Node? && (s.types == Some(One("string")) || s.types == Some(One("integer")) ||
                s.types == Some(One("number")) || s.types == Some(One("boolean")))
  }

  predicate ParameterOk(p: Parameter, taken: set<Text>, resources: Resources) {
    && (p.location == "path" || p.location == "query")
    && p.schemaId in resources && SimpleType(resources[p.schemaId])
    && p.name != [] && p.name !in taken
    && (p.location == "path" ==> p.required)
  }

  predicate IsObject(s: Schema) { s.Node? && s.types == Some(One("object")) }

  function FindEntries(aps: seq<Applicator>): seq<Named> {
    if aps == [] then []
    else if aps[0].Map? && aps[0].mapKind == Properties then aps[0].entries
    else FindEntries(aps[1..])
  }

  function FindSchema(aps: seq<Applicator>, kind: SingleKind): Option<Schema> {
    if aps == [] then None
    else if aps[0].Single? && aps[0].singleKind == kind then Some(aps[0].schema)
    else FindSchema(aps[1..], kind)
  }

  // The properties of an object body; an absent keyword means none.
  function Entries(s: Schema): seq<Named> { if s.Node? then FindEntries(s.applicators) else [] }

  function BodyRequired(s: Schema): seq<Text> { if s.Node? && s.required.Some? then s.required.value else [] }

  predicate ClosedBody(s: Schema)
    requires s.Node?
  {
    var unevaluated := FindSchema(s.applicators, Unevaluated);
    || FindSchema(s.applicators, Additional) == Some(Always(false))
    || unevaluated == Some(Always(false))
    || unevaluated == Some(NOT_ANYTHING)
  }

  predicate BodyApplicator(a: Applicator) {
    || (a.Map? && a.mapKind == Properties)
    || (a.Single? && (a.singleKind == Additional || a.singleKind == Unevaluated))
  }

  predicate RequiredDeclared(s: Schema) {
    && (forall i :: 0 <= i < |BodyRequired(s)| ==> BodyRequired(s)[i] in Names(Entries(s)))
    && Distinct(BodyRequired(s))
  }

  // An object body is flattened only if its keywords say nothing beyond its properties.
  predicate ObjectBodyOk(s: Schema, taken: set<Text>)
    requires s.Node?
  {
    && ClosedBody(s)
    && s.ref.None? && s.assertions == [] && s.annotations <= {"$schema", "title", "description"}
    && (forall i :: 0 <= i < |s.applicators| ==> BodyApplicator(s.applicators[i]))
    && RequiredDeclared(s)
    && (forall i :: 0 <= i < |Entries(s)| ==> Entries(s)[i].name !in taken && Supported(Entries(s)[i].schema))
  }

  /******* What the code builds *******/

  // All of these follow the parameters in order; the last parameter is the last one added.
  function Front<T>(s: seq<T>): seq<T>
    requires s != []
  {
    s[..|s| - 1]
  }

  function Last<T>(s: seq<T>): T
    requires s != []
  {
    s[|s| - 1]
  }

  function ParameterEntries(ps: seq<Parameter>): seq<Named> {
    if ps == [] then [] else ParameterEntries(Front(ps)) + [Named(Last(ps).name, RefTo(Last(ps).schemaId))]
  }

  function ParameterNames(ps: seq<Parameter>): set<Text> {
    if ps == [] then {} else ParameterNames(Front(ps)) + {Last(ps).name}
  }

  function ParameterIds(ps: seq<Parameter>): set<string> {
    if ps == [] then {} else ParameterIds(Front(ps)) + {Last(ps).schemaId}
  }

  predicate ParametersOk(ps: seq<Parameter>, resources: Resources) {
    ps == [] || (ParametersOk(Front(ps), resources) && ParameterOk(Last(ps), ParameterNames(Front(ps)), resources))
  }

  function PathNames(ps: seq<Parameter>): set<Text> {
    if ps == [] then {} else PathNames(Front(ps)) + (if Last(ps).location == "path" then {Last(ps).name} else {})
  }

  function RequiredParameters(ps: seq<Parameter>): set<Text> {
    if ps == [] then {} else RequiredParameters(Front(ps)) + (if Last(ps).required then {Last(ps).name} else {})
  }

  function ParameterBinding(p: Parameter): Binding {
    var style := Style(if p.location == "path" then "simple" else "form", p.location == "query", false);
    Binding(if p.location == "path" then InPath else InQuery, p.name, p.schemaId, Some(style))
  }

  function BindParameters(ps: seq<Parameter>): map<Text, Binding> {
    if ps == [] then map[] else BindParameters(Front(ps))[Last(ps).name := ParameterBinding(Last(ps))]
  }

  function BindBody(es: seq<Named>, request: string, m: map<Text, Binding>): map<Text, Binding> {
    if es == [] then m
    else BindBody(Front(es), request, m)[Last(es).name := Binding(InBody, Last(es).name, request, None)]
  }

  predicate PathOk(op: Operation) {
    && op.pathFields.Some? && Distinct(op.pathFields.value)
    && (set f | f in op.pathFields.value) == PathNames(op.parameters)
  }

  predicate RequestOk(op: Operation, resources: Resources) {
    op.request.Some? ==>
      && op.request.value in resources
      && var body := resources[op.request.value];
         if IsObject(body) then ObjectBodyOk(body, ParameterNames(op.parameters))
         else BODY !in ParameterNames(op.parameters)
  }

  // Everything that is tested before the closure is computed.
  predicate Acceptable(op: Operation, resources: Resources) {
    ParametersOk(op.parameters, resources) && PathOk(op) && RequestOk(op, resources)
  }

  function BodyEntries(op: Operation, resources: Resources): seq<Named>
    requires RequestOk(op, resources)
  {
    if op.request.None? then []
    else if IsObject(resources[op.request.value]) then RewriteNamed(Entries(resources[op.request.value]))
    else [Named(BODY, RefTo(op.request.value))]
  }

  function ToolEntries(op: Operation, resources: Resources): seq<Named>
    requires RequestOk(op, resources)
  {
    ParameterEntries(op.parameters) + BodyEntries(op, resources)
  }

  function RequiredNames(op: Operation, resources: Resources): set<Text>
    requires RequestOk(op, resources)
  {
    RequiredParameters(op.parameters) +
    (if op.request.None? then {}
     else if IsObject(resources[op.request.value]) then
       (set x | x in BodyRequired(resources[op.request.value]))
     else {BODY})
  }

  function Roots(op: Operation, resources: Resources): set<string>
    requires RequestOk(op, resources)
  {
    ParameterIds(op.parameters) +
    (if op.request.None? then {}
     else if IsObject(resources[op.request.value]) then NamedRefs(Entries(resources[op.request.value]))
     else {op.request.value})
  }

  // The binding plan: every name of the tool is bound to one place.
  function Plan(op: Operation, resources: Resources): map<Text, Binding>
    requires RequestOk(op, resources)
  {
    if op.request.None? then BindParameters(op.parameters)
    else BindBody(BodyEntries(op, resources), op.request.value, BindParameters(op.parameters))
  }

  function DefsEntries(order: seq<string>, resources: Resources): seq<Named>
    requires forall i :: 0 <= i < |order| ==> order[i] in resources
  {
    seq(|order|, i requires 0 <= i < |order| => Named(ToText(order[i]), Rewrite(resources[order[i]])))
  }

  function ToolNode(entries: seq<Named>, required: seq<Text>, defs: seq<Named>): Schema {
    Node(None, None, Some(One("object")), Some(required), [], {"$schema"},
         [Map(Properties, entries), Single(Additional, Always(false))] + (if defs == [] then [] else [Map(Defs, defs)]))
  }

  // The result of compiling an operation.
  ghost predicate IsCompiled(op: Operation, resources: Resources, c: Compiled) {
    && Acceptable(op, resources)
    && Complete(Graphs(resources), Roots(op, resources), c.closure)
    && (forall i :: 0 <= i < |c.closure| ==> c.closure[i] in resources)
    && c.bindings == Plan(op, resources)
    && exists required :: Enumerates(required, RequiredNames(op, resources)) &&
         c.tool == ToolNode(ToolEntries(op, resources), required, DefsEntries(c.closure, resources))
  }

  ghost predicate Enumerates(s: seq<Text>, names: set<Text>) { forall x :: x in s <==> x in names }

  /******* The compiler *******/

  method AddParameters(ps: seq<Parameter>, resources: Resources)
    returns (ok: bool, properties: seq<Named>, required: set<Text>, bindings: map<Text, Binding>, pathNames: set<Text>)
    ensures ok <==> ParametersOk(ps, resources)
    ensures ok ==> properties == ParameterEntries(ps) && required == RequiredParameters(ps)
    ensures ok ==> bindings == BindParameters(ps) && pathNames == PathNames(ps)
  {
    properties, required, bindings, pathNames := [], {}, map[], {};
    for n := 0 to |ps|
      invariant ParametersOk(ps[..n], resources)
      invariant properties == ParameterEntries(ps[..n]) && required == RequiredParameters(ps[..n])
      invariant bindings == BindParameters(ps[..n]) && pathNames == PathNames(ps[..n])
    {
      var p := ps[n];
      assert Front(ps[..n + 1]) == ps[..n] && Last(ps[..n + 1]) == p;
      BoundNames(ps[..n]);
      if !ParameterOk(p, bindings.Keys, resources) {
        if ParametersOk(ps, resources) {
          PrefixOk(ps, n + 1, resources);
        }
        return false, properties, required, bindings, pathNames;
      }
      properties := properties + [Named(p.name, RefTo(p.schemaId))];
      if p.required {
        required := required + {p.name};
      }
      if p.location == "path" {
        pathNames := pathNames + {p.name};
      }
      bindings := bindings[p.name := ParameterBinding(p)];
    }
    assert ps[..|ps|] == ps;
    return true, properties, required, bindings, pathNames;
  }

  lemma {:induction false} BoundNames(ps: seq<Parameter>)
    ensures BindParameters(ps).Keys == ParameterNames(ps)
  {
    if ps != [] {
      BoundNames(Front(ps));
    }
  }

  lemma {:induction false} PrefixOk(ps: seq<Parameter>, n: nat, resources: Resources)
    requires n <= |ps| && ParametersOk(ps, resources)
    ensures ParametersOk(ps[..n], resources)
    decreases |ps|
  {
    if n == |ps| {
      assert ps[..n] == ps;
    } else {
      PrefixOk(Front(ps), n, resources);
      assert Front(ps)[..n] == ps[..n];
    }
  }

  method CompileTool(op: Operation, resources: Resources) returns (r: Option<Compiled>)
    requires forall id :: id in resources ==> resources[id].Node?
    ensures r.Some? <==>
      && Acceptable(op, resources)
      && !ReachableMissing(Graphs(resources), Roots(op, resources))
      && !ReachableCycle(Graphs(resources), Roots(op, resources))
    ensures r.Some? ==> IsCompiled(op, resources, r.value)
  {
    hide ParametersOk, RequestOk, Refs, Supported, ToolEntries, RequiredNames, Plan, ReachableMissing, ReachableCycle, IsCompiled, Graphs, Roots;
    var ok, properties, required, bindings, pathNames := AddParameters(op.parameters, resources);
    if !ok {
      return None;
    }
    if op.pathFields.None? || !Distinct(op.pathFields.value) || (set f | f in op.pathFields.value) != pathNames {
      return None;
    }
    if op.request.Some? {
      ok, properties, required, bindings := AddBody(op, resources, properties, required, bindings);
      if !ok {
        return None;
      }
    } else {
      NoBody(op, resources);
    }
    r := Finish(op, resources, properties, required, bindings);
  }

  // The closure of the tool's references, and the last test on them.
  method Finish(op: Operation, resources: Resources, properties: seq<Named>, required: set<Text>, bindings: map<Text, Binding>)
    returns (r: Option<Compiled>)
    requires Acceptable(op, resources)
    requires properties == ToolEntries(op, resources) && required == RequiredNames(op, resources) && bindings == Plan(op, resources)
    ensures r.Some? <==>
      && !ReachableMissing(Graphs(resources), Roots(op, resources))
      && !ReachableCycle(Graphs(resources), Roots(op, resources))
    ensures r.Some? ==> IsCompiled(op, resources, r.value)
  {
    hide ParametersOk, RequestOk, PathOk, Roots, Reachable, Refs, Supported, ToolEntries, RequiredNames, Plan, Rebased;
    hide ReachableMissing, ReachableCycle;
    var found, order := ResourceClosure(Graphs(resources), Roots(op, resources));
    if !found {
      return None;
    }
    var names := Listed(required);
    assert forall i :: 0 <= i < |order| ==> order[i] in Graphs(resources);
    var tool := ToolNode(properties, names, DefsEntries(order, resources));
    LocalRefsAreClosure(op, resources, order, names);
    if Refs(tool) != Rebased(set id | id in order) {
      return None;
    }
    return Some(Compiled(tool, bindings, order));
  }

  lemma NoBody(op: Operation, resources: Resources)
    requires op.request.None?
    ensures RequestOk(op, resources)
    ensures ToolEntries(op, resources) == ParameterEntries(op.parameters)
    ensures RequiredNames(op, resources) == RequiredParameters(op.parameters)
    ensures Plan(op, resources) == BindParameters(op.parameters)
  {
    assert ParameterEntries(op.parameters) + [] == ParameterEntries(op.parameters);
  }

  lemma {:induction false} RewrittenAt(ns: seq<Named>, i: nat)
    requires i < |ns|
    ensures RewriteNamed(ns)[i] == Named(ns[i].name, Rewrite(ns[i].schema)) && Refs(ns[i].schema) <= NamedRefs(ns)
  {
    hide Rewrite, Refs;
    if i > 0 {
      RewrittenAt(ns[1..], i - 1);
    }
  }

  method AddBody(op: Operation, resources: Resources, properties0: seq<Named>, required0: set<Text>, bindings0: map<Text, Binding>)
    returns (ok: bool, properties: seq<Named>, required: set<Text>, bindings: map<Text, Binding>)
    requires op.request.Some? && forall id :: id in resources ==> resources[id].Node?
    requires properties0 == ParameterEntries(op.parameters) && required0 == RequiredParameters(op.parameters)
    requires bindings0 == BindParameters(op.parameters)
    ensures ok <==> RequestOk(op, resources)
    ensures ok ==> properties == ToolEntries(op, resources) && required == RequiredNames(op, resources)
    ensures ok ==> bindings == Plan(op, resources)
  {
    hide Supported, ParameterEntries, RequiredParameters, BindParameters, Rewrite;
    properties, required, bindings := properties0, required0, bindings0;
    var request := op.request.value;
    if request !in resources {
      return false, properties, required, bindings;
    }
    BoundNames(op.parameters);
    var body := resources[request];
    if IsObject(body) {
      ok, properties, bindings := AddObjectBody(body, request, properties0, bindings0);
      if ok {
        required := required + set x | x in BodyRequired(body);
      }
    } else {
      if BODY in bindings0 {
        return false, properties, required, bindings;
      }
      ok := true;
      properties := properties + [Named(BODY, RefTo(request))];
      required := required + {BODY};
      ghost var es := BodyEntries(op, resources);
      assert Front(es) == [] && Last(es).name == BODY;
      assert BindBody(es, request, bindings0) == BindBody([], request, bindings0)[BODY := Binding(InBody, BODY, request, None)];
      bindings := bindings[BODY := Binding(InBody, BODY, request, None)];
    }
  }

  method AddObjectBody(body: Schema, request: string, properties0: seq<Named>, bindings0: map<Text, Binding>)
    returns (ok: bool, properties: seq<Named>, bindings: map<Text, Binding>)
    requires body.Node?
    ensures ok <==> ObjectBodyOk(body, bindings0.Keys)
    ensures ok ==> properties == properties0 + RewriteNamed(Entries(body))
    ensures ok ==> bindings == BindBody(RewriteNamed(Entries(body)), request, bindings0)
  {
    hide Supported, Rewrite, RewriteNamed, ClosedBody, Names, RequiredDeclared, BodyApplicator, FindEntries;
    properties, bindings := properties0, bindings0;
    if || !ClosedBody(body) || body.ref.Some? || body.assertions != [] || !(body.annotations <= {"$schema", "title", "description"})
       || (exists i :: 0 <= i < |body.applicators| && !BodyApplicator(body.applicators[i]))
    {
      return false, properties, bindings;
    }
    if !RequiredDeclared(body) {
      return false, properties, bindings;
    }
    var entries := Entries(body);
    if exists i :: 0 <= i < |entries| && entries[i].name in bindings0 {
      return false, properties, bindings;
    }
    ok, properties, bindings := AddEntries(entries, request, properties0, bindings0);
  }

  lemma BindNothing(request: string, properties: seq<Named>, bindings: map<Text, Binding>)
    ensures BindBody([], request, bindings) == bindings && properties + [] == properties
  {
  }

  // One more property of a body.
  lemma BindNext(es: seq<Named>, n: nat, request: string, properties: seq<Named>, bindings: map<Text, Binding>)
    requires n < |es|
    ensures properties + es[..n + 1] == (properties + es[..n]) + [es[n]]
    ensures BindBody(es[..n + 1], request, bindings) ==
            BindBody(es[..n], request, bindings)[es[n].name := Binding(InBody, es[n].name, request, None)]
  {
    assert Front(es[..n + 1]) == es[..n] && Last(es[..n + 1]) == es[n];
    assert es[..n + 1] == es[..n] + [es[n]];
  }

  // The properties of a body, rewritten and bound one by one.
  method AddEntries(entries: seq<Named>, request: string, properties0: seq<Named>, bindings0: map<Text, Binding>)
    returns (ok: bool, properties: seq<Named>, bindings: map<Text, Binding>)
    ensures ok <==> forall i :: 0 <= i < |entries| ==> Supported(entries[i].schema)
    ensures ok ==> properties == properties0 + RewriteNamed(entries)
    ensures ok ==> bindings == BindBody(RewriteNamed(entries), request, bindings0)
  {
    hide Supported, Rewrite, RewriteNamed, BindBody;
    properties, bindings := properties0, bindings0;
    BindNothing(request, properties0, bindings0);
    ghost var rewritten := RewriteNamed(entries);
    for n := 0 to |entries|
      invariant forall i :: 0 <= i < n ==> Supported(entries[i].schema)
      invariant properties == properties0 + rewritten[..n]
      invariant bindings == BindBody(rewritten[..n], request, bindings0)
    {
      var name, schema := entries[n].name, entries[n].schema;
      if !Supported(schema) {
        return false, properties, bindings;
      }
      RewrittenAt(entries, n);
      BindNext(rewritten, n, request, properties0, bindings0);
      properties := properties + [Named(name, Rewrite(schema))];
      bindings := bindings[name := Binding(InBody, name, request, None)];
    }
    assert rewritten[..|entries|] == rewritten;
    return true, properties, bindings;
  }

  /******* The final test never fires *******/

  lemma {:induction false} NamedRefsConcat(a: seq<Named>, b: seq<Named>)
    ensures NamedRefs(a + b) == NamedRefs(a) + NamedRefs(b)
  {
    if a == [] {
      assert a + b == b;
    } else {
      assert (a + b)[1..] == a[1..] + b;
      NamedRefsConcat(a[1..], b);
    }
  }

  lemma RefToRefs(id: string)
    ensures Refs(RefTo(id)) == {LOCAL + id}
  {
  }

  lemma {:induction false} ParameterRefs(ps: seq<Parameter>)
    ensures NamedRefs(ParameterEntries(ps)) == Rebased(ParameterIds(ps))
  {
    if ps != [] {
      hide Refs;
      var id := Last(ps).schemaId;
      var last := [Named(Last(ps).name, RefTo(id))];
      ParameterRefs(Front(ps));
      NamedRefsConcat(ParameterEntries(Front(ps)), last);
      RefToRefs(id);
      assert last[1..] == [];
      RebasedUnion(ParameterIds(Front(ps)), {id});
      assert Rebased({id}) == {LOCAL + id};
    }
  }

  lemma EntriesRefs(op: Operation, resources: Resources)
    requires RequestOk(op, resources)
    ensures NamedRefs(ToolEntries(op, resources)) == Rebased(Roots(op, resources))
  {
    hide Refs;
    var ids := ParameterIds(op.parameters);
    ParameterRefs(op.parameters);
    NamedRefsConcat(ParameterEntries(op.parameters), BodyEntries(op, resources));
    if op.request.None? {
      assert Roots(op, resources) == ids;
    } else {
      var request := op.request.value;
      if IsObject(resources[request]) {
        RewriteNamedRefs(Entries(resources[request]));
        RebasedUnion(ids, NamedRefs(Entries(resources[request])));
      } else {
        RefToRefs(request);
        assert BodyEntries(op, resources)[1..] == [];
        RebasedUnion(ids, {request});
        assert Rebased({request}) == {LOCAL + request};
      }
    }
  }

  // The references of the resources in an order.
  ghost function RefsOfAll(order: seq<string>, resources: Resources): set<string>
    requires forall i :: 0 <= i < |order| ==> order[i] in resources
  {
    set i, y | 0 <= i < |order| && y in Refs(resources[order[i]]) :: y
  }

  lemma {:induction false} DefsRefs(order: seq<string>, resources: Resources)
    requires forall i :: 0 <= i < |order| ==> order[i] in resources
    ensures NamedRefs(DefsEntries(order, resources)) == Rebased(RefsOfAll(order, resources))
  {
    hide Refs, Rewrite;
    if order == [] {
      assert RefsOfAll(order, resources) == {};
    } else {
      var n := |order| - 1;
      var before, id := order[..n], order[n];
      DefsRefs(before, resources);
      var last := [Named(ToText(id), Rewrite(resources[id]))];
      assert DefsEntries(order, resources) == DefsEntries(before, resources) + last;
      NamedRefsConcat(DefsEntries(before, resources), last);
      RewriteRefs(resources[id]);
      assert last[1..] == [];
      assert RefsOfAll(order, resources) == RefsOfAll(before, resources) + Refs(resources[id]) by {
        forall y | y in RefsOfAll(order, resources) ensures y in RefsOfAll(before, resources) + Refs(resources[id]) {
          var i :| 0 <= i < |order| && y in Refs(resources[order[i]]);
          if i < n {
            assert before[i] == order[i];
          }
        }
        forall y | y in RefsOfAll(before, resources) ensures y in RefsOfAll(order, resources) {
          var i :| 0 <= i < |before| && y in Refs(resources[before[i]]);
          assert order[i] == before[i];
        }
      }
      RebasedUnion(RefsOfAll(before, resources), Refs(resources[id]));
    }
  }

  // What is reachable is a root or is referred to by something reachable.
  lemma ClosureIsRootsAndRefs(resources: Resources, roots: set<string>, order: seq<string>)
    requires Complete(Graphs(resources), roots, order) && forall i :: 0 <= i < |order| ==> order[i] in resources
    ensures (set id | id in order) == roots + RefsOfAll(order, resources)
  {
    hide Refs, Supported;
    var g := Graphs(resources);
    forall x | x in order ensures x in roots + RefsOfAll(order, resources) {
      var p :| Path(g, p) && p[0] in roots && p[|p| - 1] == x;
      if |p| > 1 {
        var q, y := p[..|p| - 1], p[|p| - 2];
        assert Edge(g, y, x);
        assert Path(g, q) && q[0] in roots && q[|q| - 1] == y by {
          forall i | 0 <= i < |q| - 1 ensures Edge(g, q[i], q[i + 1]) {
            assert Edge(g, p[i], p[i + 1]);
          }
        }
        assert Reachable(g, roots, y);
        var i :| 0 <= i < |order| && order[i] == y;
        assert x in Refs(resources[order[i]]);
      }
    }
    forall x | x in roots ensures x in order {
      RootReachable(g, roots, x);
    }
    forall x | x in RefsOfAll(order, resources) ensures x in order {
      var i :| 0 <= i < |order| && x in Refs(resources[order[i]]);
      assert Edge(g, order[i], x);
      ReachableStep(g, roots, order[i], x);
    }
  }

  // The local references of the tool are exactly the names of its $defs.
  lemma LocalRefsAreClosure(op: Operation, resources: Resources, order: seq<string>, required: seq<Text>)
    requires RequestOk(op, resources) && Complete(Graphs(resources), Roots(op, resources), order)
    requires forall i :: 0 <= i < |order| ==> order[i] in resources
    ensures Refs(ToolNode(ToolEntries(op, resources), required, DefsEntries(order, resources))) ==
            Rebased(set id | id in order)
  {
    hide Rewrite, Complete, NamedRefs;
    var entries, defs := ToolEntries(op, resources), DefsEntries(order, resources);
    EntriesRefs(op, resources);
    DefsRefs(order, resources);
    ClosureIsRootsAndRefs(resources, Roots(op, resources), order);
    RebasedUnion(Roots(op, resources), RefsOfAll(order, resources));
    ToolRefs(entries, required, defs);
  }

  lemma ToolRefs(entries: seq<Named>, required: seq<Text>, defs: seq<Named>)
    ensures Refs(ToolNode(entries, required, defs)) == NamedRefs(entries) + NamedRefs(defs)
  {
    hide NamedRefs;
    var closed := Single(Additional, Always(false));
    var tail := if defs == [] then [] else [Map(Defs, defs)];
    var aps := [Map(Properties, entries), closed] + tail;
    assert aps[1..] == [closed] + tail && ([closed] + tail)[1..] == tail;
    NoNamedRefs();
    assert ApplicatorRefs(tail) == NamedRefs(defs) by {
      if defs != [] {
        assert tail[1..] == [];
      }
    }
    assert ApplicatorRefs([closed] + tail) == NamedRefs(defs);
    assert ApplicatorRefs(aps) == NamedRefs(entries) + ApplicatorRefs([closed] + tail);
  }

  lemma NoNamedRefs()
    ensures NamedRefs([]) == {}
  {
  }
}
