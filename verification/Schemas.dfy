/**
 JSON Schema documents over the vocabulary that scripts/contracts/generate.py supports, the two
 vocabulary checks, the two reference collectors and the reference rewriter.

 A schema object keeps its identifier, its reference, its assertions on the instance alone, and its
 applicators: the keywords that hold a map of schemas, a list of schemas or one schema.
 */
module Schemas {
  import opened Basics
  import opened Unicode
  import opened JsonValues

  // A keyword whose value constrains the instance without naming a schema, such as minLength or enum.
  datatype Assertion = Assertion(keyword: string, operand: Json)

  datatype TypeName = One(name: string) | Many(names: seq<string>)

  datatype MapKind = Defs | Properties | PatternProperties | DependentSchemas
  datatype ListKind = AllOf | AnyOf | OneOf | PrefixItems
  datatype SingleKind = Additional | Unevaluated | PropertyNames | Not | If | Then | Else | Items | Contains

  datatype Named = Named(name: Text, schema: Schema)

  datatype Applicator =
    | Map(mapKind: MapKind, entries: seq<Named>)
    | List(listKind: ListKind, schemas: seq<Schema>)
    | Single(singleKind: SingleKind, schema: Schema)

  datatype Schema =
    | Always(accepts: bool)
    | NotASchema
    | Node(id: Option<string>, ref: Option<string>, types: Option<TypeName>, required: Option<seq<Text>>,
           assertions: seq<Assertion>, annotations: set<string>, applicators: seq<Applicator>)

  /******* Keywords *******/

  const TOOL_ANNOTATIONS: set<string> :=
    {"$schema", "$anchor", "$comment", "title", "description", "default", "examples", "deprecated", "readOnly", "writeOnly"}

  const TOOL_ASSERTIONS: set<string> :=
    {"enum", "const", "multipleOf", "maximum", "exclusiveMaximum", "minimum", "exclusiveMinimum", "maxLength",
     "minLength", "pattern", "maxItems", "minItems", "uniqueItems", "maxContains", "minContains", "maxProperties",
     "minProperties", "dependentRequired"}

  const PROFILE_ANNOTATIONS: set<string> :=
    {"$schema", "title", "description", "$comment", "deprecated", "readOnly", "writeOnly", "examples",
     "contentEncoding", "contentMediaType"}

  const PROFILE_ASSERTIONS: set<string> :=
    {"enum", "const", "minItems", "maxItems", "uniqueItems", "minLength", "maxLength", "pattern", "minimum",
     "maximum", "exclusiveMinimum", "exclusiveMaximum", "multipleOf", "minProperties", "maxProperties"}

  // The applicators of the bundle profile; the tool vocabulary has all of them.
  predicate InProfile(a: Applicator) {
    match a
    case Map(k, _) => k == Defs || k == Properties
    case List(_, _) => true
    case Single(k, _) => k == Not || k == Items || k == Additional || k == Unevaluated
  }

  // The identifier pattern [A-Za-z0-9_.-]+ of both modules.
  predicate IdChar(c: char) {
    'A' <= c <= 'Z' || 'a' <= c <= 'z' || '0' <= c <= '9' || c == '_' || c == '.' || c == '-'
  }

  predicate ValidId(s: string) { s != "" && forall i :: 0 <= i < |s| ==> IdChar(s[i]) }

  /******* Vocabulary checks and references *******/

  // _check_tool_schema_vocabulary, with the reference pattern that _schema_refs and _rewrite_schema_refs test.
  predicate Supported(s: Schema)
    decreases s, 1
  {
    match s
    case Always(_) => true
    case NotASchema => false
    case Node(_, ref, _, _, assertions, annotations, applicators) =>
      && annotations <= TOOL_ANNOTATIONS && (forall a :: a in assertions ==> a.keyword in TOOL_ASSERTIONS)
      && (ref.Some? ==> ValidId(ref.value))
      && SupportedAll(applicators)
  }

  predicate SupportedAll(aps: seq<Applicator>)
    decreases aps, 0
  {
    aps == [] ||
    (&& (match aps[0]
         case Map(_, entries) => SupportedNamed(entries)
         case List(_, schemas) => SupportedList(schemas)
         case Single(_, schema) => Supported(schema))
     && SupportedAll(aps[1..]))
  }

  predicate SupportedList(ss: seq<Schema>)
    decreases ss, 0
  {
    ss == [] || (Supported(ss[0]) && SupportedList(ss[1..]))
  }

  predicate SupportedNamed(ns: seq<Named>)
    decreases ns, 0
  {
    ns == [] || (Supported(ns[0].schema) && SupportedNamed(ns[1..]))
  }

  // _schema_refs: the references in schema positions.
  function Refs(s: Schema): set<string>
    decreases s, 1
  {
    match s
    case Node(_, ref, _, _, _, _, applicators) =>
      (if ref.Some? then {ref.value} else {}) + ApplicatorRefs(applicators)
    case _ => {}
  }

  function ApplicatorRefs(aps: seq<Applicator>): set<string>
    decreases aps, 0
  {
    if aps == [] then {}
    else
      (match aps[0]
       case Map(_, entries) => NamedRefs(entries)
       case List(_, schemas) => ListRefs(schemas)
       case Single(_, schema) => Refs(schema)) + ApplicatorRefs(aps[1..])
  }

  function ListRefs(ss: seq<Schema>): set<string>
    decreases ss, 0
  {
    if ss == [] then {} else Refs(ss[0]) + ListRefs(ss[1..])
  }

  function NamedRefs(ns: seq<Named>): set<string>
    decreases ns, 0
  {
    if ns == [] then {} else Refs(ns[0].schema) + NamedRefs(ns[1..])
  }

  /******* The bundle profile *******/

  // `walk` of validate_bundle below the root: `resource` says whether an identifier is allowed here.
  predicate Walks(s: Schema, ids: set<string>, resource: bool)
    decreases s, 1
  {
    match s
    case Always(_) => true
    case NotASchema => false
    case Node(id, ref, _, _, assertions, annotations, applicators) =>
      && annotations <= PROFILE_ANNOTATIONS && (forall a :: a in assertions ==> a.keyword in PROFILE_ASSERTIONS)
      && (id.Some? ==> resource)
      && (ref.Some? ==> ref.value in ids)
      && WalksAll(applicators, ids)
  }

  predicate WalksAll(aps: seq<Applicator>, ids: set<string>)
    decreases aps, 0
  {
    aps == [] ||
    (&& InProfile(aps[0])
     && (match aps[0]
         case Map(_, entries) => WalksNamed(entries, ids)
         case List(_, schemas) => WalksList(schemas, ids)
         case Single(_, schema) => Walks(schema, ids, false))
     && WalksAll(aps[1..], ids))
  }

  predicate WalksList(ss: seq<Schema>, ids: set<string>)
    decreases ss, 0
  {
    ss == [] || (Walks(ss[0], ids, false) && WalksList(ss[1..], ids))
  }

  predicate WalksNamed(ns: seq<Named>, ids: set<string>)
    decreases ns, 0
  {
    ns == [] || (Walks(ns[0].schema, ids, false) && WalksNamed(ns[1..], ids))
  }

  // `references` of validate_bundle: it visits the applicators of the profile only.
  function ProfileRefs(s: Schema): set<string>
    decreases s, 1
  {
    match s
    case Node(_, ref, _, _, _, _, applicators) =>
      (if ref.Some? then {ref.value} else {}) + ProfileApplicatorRefs(applicators)
    case _ => {}
  }

  function ProfileApplicatorRefs(aps: seq<Applicator>): set<string>
    decreases aps, 0
  {
    if aps == [] then {}
    else
      (match aps[0]
       case Map(_, entries) => if InProfile(aps[0]) then ProfileNamedRefs(entries) else {}
       case List(_, schemas) => if InProfile(aps[0]) then ProfileListRefs(schemas) else {}
       case Single(_, schema) =>
         assert schema < aps[0];
         if InProfile(aps[0]) then ProfileRefs(schema) else {}) +
      ProfileApplicatorRefs(aps[1..])
  }

  function ProfileListRefs(ss: seq<Schema>): set<string>
    decreases ss, 0
  {
    if ss == [] then {} else ProfileRefs(ss[0]) + ProfileListRefs(ss[1..])
  }

  function ProfileNamedRefs(ns: seq<Named>): set<string>
    decreases ns, 0
  {
    if ns == [] then {} else ProfileRefs(ns[0].schema) + ProfileNamedRefs(ns[1..])
  }

  // On an accepted schema the two collectors find the same references, and all of them are known.
  lemma {:induction false} CollectorsAgree(s: Schema, ids: set<string>, resource: bool)
    requires Walks(s, ids, resource)
    ensures ProfileRefs(s) == Refs(s) && Refs(s) <= ids
    decreases s, 1
  {
    if s.Node? {
      CollectorsAgreeAll(s.applicators, ids);
    }
  }

  lemma {:induction false} CollectorsAgreeAll(aps: seq<Applicator>, ids: set<string>)
    requires WalksAll(aps, ids)
    ensures ProfileApplicatorRefs(aps) == ApplicatorRefs(aps) && ApplicatorRefs(aps) <= ids
    decreases aps, 0
  {
    if aps != [] {
      var a := aps[0];
      if a.Map? {
        CollectorsAgreeNamed(a.entries, ids);
      } else if a.List? {
        CollectorsAgreeList(a.schemas, ids);
      } else {
        assert a.schema < a;
        CollectorsAgree(a.schema, ids, false);
      }
      CollectorsAgreeAll(aps[1..], ids);
    }
  }

  lemma {:induction false} CollectorsAgreeList(ss: seq<Schema>, ids: set<string>)
    requires WalksList(ss, ids)
    ensures ProfileListRefs(ss) == ListRefs(ss) && ListRefs(ss) <= ids
    decreases ss, 0
  {
    if ss != [] {
      CollectorsAgree(ss[0], ids, false);
      CollectorsAgreeList(ss[1..], ids);
    }
  }

  lemma {:induction false} CollectorsAgreeNamed(ns: seq<Named>, ids: set<string>)
    requires WalksNamed(ns, ids)
    ensures ProfileNamedRefs(ns) == NamedRefs(ns) && NamedRefs(ns) <= ids
    decreases ns, 0
  {
    if ns != [] {
      CollectorsAgree(ns[0].schema, ids, false);
      CollectorsAgreeNamed(ns[1..], ids);
    }
  }

  /******* Rewriting *******/

  const LOCAL := "#/$defs/"

  // _rewrite_schema_refs on a supported schema: drop the identifier, rebase the references.
  function Rewrite(s: Schema): Schema
    decreases s, 1
  {
    match s
    case Node(_, ref, types, required, assertions, annotations, applicators) =>
      Node(None, if ref.Some? then Some(LOCAL + ref.value) else None, types, required, assertions, annotations,
           RewriteAll(applicators))
    case _ => s
  }

  function RewriteAll(aps: seq<Applicator>): (r: seq<Applicator>)
    ensures |r| == |aps|
    decreases aps, 0
  {
    if aps == [] then []
    else
      [match aps[0]
       case Map(kind, entries) => Map(kind, RewriteNamed(entries))
       case List(kind, schemas) => List(kind, RewriteList(schemas))
       case Single(kind, schema) => Single(kind, Rewrite(schema))] + RewriteAll(aps[1..])
  }

  function RewriteList(ss: seq<Schema>): (r: seq<Schema>)
    ensures |r| == |ss|
    decreases ss, 0
  {
    if ss == [] then [] else [Rewrite(ss[0])] + RewriteList(ss[1..])
  }

  function RewriteNamed(ns: seq<Named>): (r: seq<Named>)
    ensures |r| == |ns| && Names(r) == Names(ns)
    decreases ns, 0
  {
    if ns == [] then [] else [Named(ns[0].name, Rewrite(ns[0].schema))] + RewriteNamed(ns[1..])
  }

  function Names(ns: seq<Named>): (r: seq<Text>)
    ensures |r| == |ns| && forall i :: 0 <= i < |ns| ==> r[i] == ns[i].name
  {
    if ns == [] then [] else [ns[0].name] + Names(ns[1..])
  }

  // Rewriting renames every reference and adds none: the local references are the old ones, rebased.
  function Rebased(ids: set<string>): set<string> { set id | id in ids :: LOCAL + id }

  lemma RebasedUnion(a: set<string>, b: set<string>)
    ensures Rebased(a + b) == Rebased(a) + Rebased(b)
  {
  }

  lemma {:induction false} RewriteRefs(s: Schema)
    ensures Refs(Rewrite(s)) == Rebased(Refs(s))
    decreases s, 1
  {
    if s.Node? {
      RewriteAllRefs(s.applicators);
      var own: set<string> := if s.ref.Some? then {s.ref.value} else {};
      RebasedUnion(own, ApplicatorRefs(s.applicators));
      assert s.ref.Some? ==> Rebased({s.ref.value}) == {LOCAL + s.ref.value};
    }
  }

  lemma {:induction false} RewriteAllRefs(aps: seq<Applicator>)
    ensures ApplicatorRefs(RewriteAll(aps)) == Rebased(ApplicatorRefs(aps))
    decreases aps, 0
  {
    if aps != [] {
      var head := match aps[0]
        case Map(_, entries) => NamedRefs(entries)
        case List(_, schemas) => ListRefs(schemas)
        case Single(_, schema) => Refs(schema);
      match aps[0] {
        case Map(_, entries) => RewriteNamedRefs(entries);
        case List(_, schemas) => RewriteListRefs(schemas);
        case Single(_, schema) =>
          assert schema < aps[0];
          RewriteRefs(schema);
      }
      RewriteAllRefs(aps[1..]);
      RebasedUnion(head, ApplicatorRefs(aps[1..]));
      assert RewriteAll(aps)[1..] == RewriteAll(aps[1..]);
    }
  }

  lemma {:induction false} RewriteListRefs(ss: seq<Schema>)
    ensures ListRefs(RewriteList(ss)) == Rebased(ListRefs(ss))
    decreases ss, 0
  {
    if ss != [] {
      RewriteRefs(ss[0]);
      RewriteListRefs(ss[1..]);
      RebasedUnion(Refs(ss[0]), ListRefs(ss[1..]));
      assert RewriteList(ss)[1..] == RewriteList(ss[1..]);
    }
  }

  lemma {:induction false} RewriteNamedRefs(ns: seq<Named>)
    ensures NamedRefs(RewriteNamed(ns)) == Rebased(NamedRefs(ns))
    decreases ns, 0
  {
    if ns != [] {
      RewriteRefs(ns[0].schema);
      RewriteNamedRefs(ns[1..]);
      RebasedUnion(Refs(ns[0].schema), NamedRefs(ns[1..]));
      assert RewriteNamed(ns)[1..] == RewriteNamed(ns[1..]);
    }
  }

  /******* What rewriting keeps and what it drops *******/

  // No schema inside carries an identifier.
  predicate NoIds(s: Schema)
    decreases s
  {
    s.Node? ==> s.id.None? && forall i :: 0 <= i < |s.applicators| ==> NoIdsIn(s.applicators[i])
  }

  predicate NoIdsIn(a: Applicator)
    decreases a
  {
    match a
    case Map(_, entries) => forall j :: 0 <= j < |entries| ==> NoIds(entries[j].schema)
    case List(_, schemas) => forall j :: 0 <= j < |schemas| ==> NoIds(schemas[j])
    case Single(_, schema) => NoIds(schema)
  }

  // `t` says what `s` says, keyword by keyword and at every depth, with its references into "$defs"; the identifiers
  // of `t` are left open.
  predicate IsCopy(s: Schema, t: Schema)
    decreases s
  {
    match s
    case Node(_, ref, types, required, assertions, annotations, applicators) =>
      && t.Node? && t.types == types && t.required == required && t.assertions == assertions && t.annotations == annotations
      && (ref.Some? <==> t.ref.Some?) && (ref.Some? ==> t.ref.value == "#/$defs/" + ref.value)
      && |t.applicators| == |applicators|
      && forall i :: 0 <= i < |applicators| ==> IsCopyIn(applicators[i], t.applicators[i])
    case _ => t == s
  }

  predicate IsCopyIn(a: Applicator, b: Applicator)
    decreases a
  {
    match a
    case Map(kind, entries) =>
      && b.Map? && b.mapKind == kind && |b.entries| == |entries|
      && forall j :: 0 <= j < |entries| ==> b.entries[j].name == entries[j].name && IsCopy(entries[j].schema, b.entries[j].schema)
    case List(kind, schemas) =>
      && b.List? && b.listKind == kind && |b.schemas| == |schemas|
      && forall j :: 0 <= j < |schemas| ==> IsCopy(schemas[j], b.schemas[j])
    case Single(kind, schema) => b.Single? && b.singleKind == kind && IsCopy(schema, b.schema)
  }

  lemma {:induction false} RewriteAt(aps: seq<Applicator>, i: nat)
    requires i < |aps|
    ensures RewriteAll(aps)[i] == RewriteAll([aps[i]])[0]
  {
    if i > 0 {
      RewriteAt(aps[1..], i - 1);
    }
  }

  lemma {:induction false} RewriteListAt(ss: seq<Schema>, i: nat)
    requires i < |ss|
    ensures RewriteList(ss)[i] == Rewrite(ss[i])
  {
    if i > 0 {
      RewriteListAt(ss[1..], i - 1);
    }
  }

  lemma {:induction false} RewriteNamedAt(ns: seq<Named>, i: nat)
    requires i < |ns|
    ensures RewriteNamed(ns)[i] == Named(ns[i].name, Rewrite(ns[i].schema))
  {
    if i > 0 {
      RewriteNamedAt(ns[1..], i - 1);
    }
  }

  // The rewritten schema is the one copy without identifiers: nothing else is dropped, added or changed.
  lemma {:induction false} RewriteIsTheCopy(s: Schema, t: Schema)
    ensures t == Rewrite(s) <==> IsCopy(s, t) && NoIds(t)
    decreases s
  {
    if s.Node? && t.Node? && |t.applicators| == |s.applicators| {
      var r := RewriteAll(s.applicators);
      forall i | 0 <= i < |r|
        ensures t.applicators[i] == r[i] <==> IsCopyIn(s.applicators[i], t.applicators[i]) && NoIdsIn(t.applicators[i])
      {
        RewriteAt(s.applicators, i);
        RewriteIsTheCopyIn(s.applicators[i], t.applicators[i]);
      }
      assert t.applicators == r <==> forall i :: 0 <= i < |r| ==> t.applicators[i] == r[i];
    }
  }

  lemma {:induction false} RewriteIsTheCopyIn(a: Applicator, b: Applicator)
    ensures b == RewriteAll([a])[0] <==> IsCopyIn(a, b) && NoIdsIn(b)
    decreases a
  {
    match a
    case Map(kind, entries) =>
      if b.Map? && |b.entries| == |entries| {
        var r := RewriteNamed(entries);
        forall j | 0 <= j < |r|
          ensures b.entries[j] == r[j] <==>
            b.entries[j].name == entries[j].name && IsCopy(entries[j].schema, b.entries[j].schema) && NoIds(b.entries[j].schema)
        {
          RewriteNamedAt(entries, j);
          RewriteIsTheCopy(entries[j].schema, b.entries[j].schema);
        }
        assert b.entries == r <==> forall j :: 0 <= j < |r| ==> b.entries[j] == r[j];
      }
    case List(kind, schemas) =>
      if b.List? && |b.schemas| == |schemas| {
        var r := RewriteList(schemas);
        forall j | 0 <= j < |r| ensures b.schemas[j] == r[j] <==> IsCopy(schemas[j], b.schemas[j]) && NoIds(b.schemas[j]) {
          RewriteListAt(schemas, j);
          RewriteIsTheCopy(schemas[j], b.schemas[j]);
        }
        assert b.schemas == r <==> forall j :: 0 <= j < |r| ==> b.schemas[j] == r[j];
      }
    case Single(kind, schema) =>
      if b.Single? {
        RewriteIsTheCopy(schema, b.schema);
      }
  }
}
