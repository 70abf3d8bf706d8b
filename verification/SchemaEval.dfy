/**
 Evaluation of the supported vocabulary under draft 2020-12: `$ref` (Core, section 8.2.3.1), the
 applicators (Core, sections 10.2 and 10.3) and `unevaluatedProperties` (Core, section 11.3).

 Every applicator is first tried on the instances it could apply to; `Judge` then decides the object
 from those verdicts.  Evaluation follows a reference only to a schema of lower rank, which is what
 makes it well founded; `RankDoesNotMatter` shows that the choice of ranks is immaterial.
 */
module SchemaEval {
  import opened Basics
  import opened Unicode
  import opened JsonValues
  import opened Schemas

  // The names in `evaluated` are the properties of the instance that the schema has evaluated.
  datatype Verdict = Valid(evaluated: set<Text>) | Invalid

  // The meaning of the keywords that only look at the instance.
  datatype Atoms = Atoms(
    holds: (Assertion, Json) -> bool,
    matches: (Text, Text) -> bool,
    counts: (seq<Assertion>, nat) -> bool,
    integral: Number -> bool)

  // Where references lead: `prefix` followed by an identifier of `defs`.
  datatype Scope = Scope(prefix: string, defs: map<string, Schema>, rank: map<string, nat>)

  function Target(scope: Scope, ref: string): Option<string> {
    if |scope.prefix| <= |ref| && ref[..|scope.prefix|] == scope.prefix && ref[|scope.prefix|..] in scope.defs
    then Some(ref[|scope.prefix|..]) else None
  }

  /******* Instances that an applicator looks at *******/

  function Members(inst: Json): seq<Member> { if inst.Obj? then inst.members else [] }

  function MemberNames(ms: seq<Member>): (r: seq<Text>)
    ensures |r| == |ms| && forall i :: 0 <= i < |ms| ==> r[i] == ms[i].key
  {
    if ms == [] then [] else [ms[0].key] + MemberNames(ms[1..])
  }

  function MemberValues(ms: seq<Member>): (r: seq<Json>)
    ensures |r| == |ms| && forall i :: 0 <= i < |ms| ==> r[i] == ms[i].value
  {
    if ms == [] then [] else [ms[0].value] + MemberValues(ms[1..])
  }

  function NameStrings(ms: seq<Member>): (r: seq<Json>)
    ensures |r| == |ms| && forall i :: 0 <= i < |ms| ==> r[i] == Str(ms[i].key)
  {
    if ms == [] then [] else [Str(ms[0].key)] + NameStrings(ms[1..])
  }

  function Elements(inst: Json): seq<Json> { if inst.Arr? then inst.items else [] }

  function MapProbes(kind: MapKind, inst: Json): seq<Json> {
    match kind
    case Defs => []
    case DependentSchemas => [inst]
    case _ => MemberValues(Members(inst))
  }

  function ListProbes(kind: ListKind, inst: Json): seq<Json> {
    if kind == PrefixItems then Elements(inst) else [inst]
  }

  function SingleProbes(kind: SingleKind, inst: Json): seq<Json> {
    match kind
    case Additional => MemberValues(Members(inst))
    case Unevaluated => MemberValues(Members(inst))
    case PropertyNames => NameStrings(Members(inst))
    case Items => Elements(inst)
    case Contains => Elements(inst)
    case _ => [inst]
  }

  /******* Deciding a schema object *******/

  // One applicator after its schemas have been tried on its instances.
  datatype Part =
    | MapPart(mapKind: MapKind, names: seq<Text>, table: seq<seq<Verdict>>)
    | ListPart(listKind: ListKind, rows: seq<seq<Verdict>>)
    | SinglePart(singleKind: SingleKind, row: seq<Verdict>)

  function FindMap(parts: seq<Part>, kind: MapKind): Option<Part> {
    if parts == [] then None
    else if parts[0].MapPart? && parts[0].mapKind == kind then Some(parts[0])
    else FindMap(parts[1..], kind)
  }

  function FindList(parts: seq<Part>, kind: ListKind): Option<Part> {
    if parts == [] then None
    else if parts[0].ListPart? && parts[0].listKind == kind then Some(parts[0])
    else FindList(parts[1..], kind)
  }

  function FindSingle(parts: seq<Part>, kind: SingleKind): Option<Part> {
    if parts == [] then None
    else if parts[0].SinglePart? && parts[0].singleKind == kind then Some(parts[0])
    else FindSingle(parts[1..], kind)
  }

  function NamesOf(parts: seq<Part>, kind: MapKind): seq<Text> {
    var p := FindMap(parts, kind);
    if p.Some? && p.value.MapPart? then p.value.names else []
  }

  function RowOf(parts: seq<Part>, kind: SingleKind): seq<Verdict> {
    var p := FindSingle(parts, kind);
    if p.Some? && p.value.SinglePart? then p.value.row else []
  }

  // A verdict that is not in the table constrains nothing.
  predicate Passes(row: seq<Verdict>, j: nat) { j < |row| ==> row[j].Valid? }

  function EvaluatedBy(row: seq<Verdict>): set<Text> {
    if row != [] && row[0].Valid? then row[0].evaluated else {}
  }

  // The properties evaluated by the schemas of a list that accept the instance.
  function UnionOf(rows: seq<seq<Verdict>>): set<Text> {
    if rows == [] then {} else EvaluatedBy(rows[0]) + UnionOf(rows[1..])
  }

  function Passing(rows: seq<seq<Verdict>>): nat {
    if rows == [] then 0 else (if Passes(rows[0], 0) then 1 else 0) + Passing(rows[1..])
  }

  function PassingItems(row: seq<Verdict>): nat {
    if row == [] then 0 else (if row[0].Valid? then 1 else 0) + PassingItems(row[1..])
  }

  predicate Matched(atoms: Atoms, patterns: seq<Text>, key: Text) {
    exists i :: 0 <= i < |patterns| && atoms.matches(patterns[i], key)
  }

  // A member that neither properties nor patternProperties speaks about.
  predicate Extra(atoms: Atoms, parts: seq<Part>, key: Text) {
    key !in NamesOf(parts, Properties) && !Matched(atoms, NamesOf(parts, PatternProperties), key)
  }

  predicate MapAccepts(atoms: Atoms, p: Part, ms: seq<Member>)
    requires p.MapPart?
  {
    match p.mapKind
    case Defs => true
    case Properties =>
      forall i, j :: 0 <= i < |p.names| && 0 <= j < |ms| && i < |p.table| && ms[j].key == p.names[i] ==> Passes(p.table[i], j)
    case PatternProperties =>
      forall i, j :: 0 <= i < |p.names| && 0 <= j < |ms| && i < |p.table| && atoms.matches(p.names[i], ms[j].key) ==> Passes(p.table[i], j)
    case DependentSchemas =>
      forall i :: 0 <= i < |p.names| && i < |p.table| && p.names[i] in MemberNames(ms) ==> Passes(p.table[i], 0)
  }

  predicate ListAccepts(p: Part)
    requires p.ListPart?
  {
    match p.listKind
    case AllOf => forall i :: 0 <= i < |p.rows| ==> Passes(p.rows[i], 0)
    case AnyOf => Passing(p.rows) >= 1
    case OneOf => Passing(p.rows) == 1
    case PrefixItems => forall i :: 0 <= i < |p.rows| ==> Passes(p.rows[i], i)
  }

  predicate SingleAccepts(atoms: Atoms, assertions: seq<Assertion>, parts: seq<Part>, p: Part, inst: Json)
    requires p.SinglePart?
  {
    var ms := Members(inst);
    match p.singleKind
    case Additional => forall j :: 0 <= j < |ms| && Extra(atoms, parts, ms[j].key) ==> Passes(p.row, j)
    case Unevaluated => true
    case PropertyNames => forall j :: 0 <= j < |p.row| ==> p.row[j].Valid?
    case Not => p.row != [] ==> p.row[0].Invalid?
    case If => true
    case Then => FindSingle(parts, If).Some? && Passes(RowOf(parts, If), 0) ==> Passes(p.row, 0)
    case Else => FindSingle(parts, If).Some? && !Passes(RowOf(parts, If), 0) ==> Passes(p.row, 0)
    case Items =>
      var prefix := FindList(parts, PrefixItems);
      forall j :: 0 <= j < |p.row| && (prefix.Some? && prefix.value.ListPart? ==> j >= |prefix.value.rows|) ==> p.row[j].Valid?
    case Contains => inst.Arr? ==> atoms.counts(assertions, PassingItems(p.row))
  }

  function SelectedRows(names: seq<Text>, table: seq<seq<Verdict>>, keys: seq<Text>): seq<seq<Verdict>> {
    if names == [] || table == [] then []
    else (if names[0] in keys then [table[0]] else []) + SelectedRows(names[1..], table[1..], keys)
  }

  // The properties that one applicator evaluates.
  function PartEvaluates(atoms: Atoms, parts: seq<Part>, p: Part, inst: Json): set<Text> {
    var keys := MemberNames(Members(inst));
    match p
    case MapPart(Properties, names, _) => set k | k in keys && k in names
    case MapPart(PatternProperties, names, _) => set k | k in keys && Matched(atoms, names, k)
    case MapPart(DependentSchemas, names, table) => UnionOf(SelectedRows(names, table, keys))
    case MapPart(Defs, _, _) => {}
    case ListPart(kind, rows) => if kind == PrefixItems then {} else UnionOf(rows)
    case SinglePart(Additional, _) => set k | k in keys && Extra(atoms, parts, k)
    case SinglePart(If, row) => EvaluatedBy(row)
    case SinglePart(Then, row) => if Passes(RowOf(parts, If), 0) && FindSingle(parts, If).Some? then EvaluatedBy(row) else {}
    case SinglePart(Else, row) => if !Passes(RowOf(parts, If), 0) && FindSingle(parts, If).Some? then EvaluatedBy(row) else {}
    case SinglePart(_, _) => {}
  }

  predicate PartAccepts(atoms: Atoms, assertions: seq<Assertion>, parts: seq<Part>, p: Part, inst: Json) {
    match p
    case MapPart(_, _, _) => MapAccepts(atoms, p, Members(inst))
    case ListPart(_, _) => ListAccepts(p)
    case SinglePart(_, _) => SingleAccepts(atoms, assertions, parts, p, inst)
  }

  predicate PartsAccept(atoms: Atoms, assertions: seq<Assertion>, parts: seq<Part>, todo: seq<Part>, inst: Json) {
    todo == [] || (PartAccepts(atoms, assertions, parts, todo[0], inst) && PartsAccept(atoms, assertions, parts, todo[1..], inst))
  }

  function PartsEvaluate(atoms: Atoms, parts: seq<Part>, todo: seq<Part>, inst: Json): set<Text> {
    if todo == [] then {} else PartEvaluates(atoms, parts, todo[0], inst) + PartsEvaluate(atoms, parts, todo[1..], inst)
  }

  predicate TypeAccepts(atoms: Atoms, name: string, inst: Json) {
    match inst
    case Null => name == "null"
    case Bool(_) => name == "boolean"
    case Num(n) => name == "number" || (name == "integer" && atoms.integral(n))
    case Str(_) => name == "string"
    case Arr(_) => name == "array"
    case Obj(_) => name == "object"
  }

  predicate TypesAccept(atoms: Atoms, types: Option<TypeName>, inst: Json) {
    match types
    case None => true
    case Some(One(name)) => TypeAccepts(atoms, name, inst)
    case Some(Many(names)) => exists name :: name in names && TypeAccepts(atoms, name, inst)
  }

  predicate RequiredPresent(required: Option<seq<Text>>, inst: Json) {
    required.Some? && inst.Obj? ==> forall i :: 0 <= i < |required.value| ==> required.value[i] in MemberNames(inst.members)
  }

  predicate AssertionsHold(atoms: Atoms, assertions: seq<Assertion>, inst: Json) {
    forall a :: a in assertions ==> atoms.holds(a, inst)
  }

  predicate UnevaluatedPass(parts: seq<Part>, done: set<Text>, inst: Json) {
    var ms := Members(inst);
    forall j :: 0 <= j < |ms| && ms[j].key !in done ==> Passes(RowOf(parts, Unevaluated), j)
  }

  // The verdict of a schema object, from the verdict of its reference and of its applicators.
  function Judge(atoms: Atoms, types: Option<TypeName>, required: Option<seq<Text>>, assertions: seq<Assertion>,
                 target: Option<Verdict>, parts: seq<Part>, inst: Json): Verdict
  {
    var done := (if target.Some? && target.value.Valid? then target.value.evaluated else {}) +
                PartsEvaluate(atoms, parts, parts, inst);
    if && (target.Some? ==> target.value.Valid?)
       && TypesAccept(atoms, types, inst) && RequiredPresent(required, inst) && AssertionsHold(atoms, assertions, inst)
       && PartsAccept(atoms, assertions, parts, parts, inst) && UnevaluatedPass(parts, done, inst)
    then Valid(if FindSingle(parts, Unevaluated).Some? then done + (set m | m in Members(inst) :: m.key) else done)
    else Invalid
  }

  /******* Evaluation *******/

  function Eval(atoms: Atoms, scope: Scope, bound: nat, s: Schema, inst: Json): Verdict
    decreases bound, s, 1
  {
    match s
    case Always(accepts) => if accepts then Valid({}) else Invalid
    case NotASchema => Invalid
    case Node(_, ref, types, required, assertions, _, applicators) =>
      Judge(atoms, types, required, assertions, EvalRef(atoms, scope, bound, ref, inst),
            EvalAll(atoms, scope, bound, applicators, inst), inst)
  }

  function EvalRef(atoms: Atoms, scope: Scope, bound: nat, ref: Option<string>, inst: Json): Option<Verdict>
    decreases bound, ref, 0
  {
    if ref.None? then None
    else
      var id := Target(scope, ref.value);
      if id.Some? && id.value in scope.rank && scope.rank[id.value] < bound then
        Some(Eval(atoms, scope, scope.rank[id.value], scope.defs[id.value], inst))
      else Some(Invalid)
  }

  function EvalAll(atoms: Atoms, scope: Scope, bound: nat, aps: seq<Applicator>, inst: Json): seq<Part>
    decreases bound, aps, 0
  {
    if aps == [] then []
    else
      [match aps[0]
       case Map(kind, entries) => MapPart(kind, Names(entries), EvalNamed(atoms, scope, bound, entries, MapProbes(kind, inst)))
       case List(kind, schemas) => ListPart(kind, EvalList(atoms, scope, bound, schemas, ListProbes(kind, inst)))
       case Single(kind, schema) =>
         assert schema < aps[0];
         SinglePart(kind, EvalEach(atoms, scope, bound, schema, SingleProbes(kind, inst)))] +
      EvalAll(atoms, scope, bound, aps[1..], inst)
  }

  function EvalList(atoms: Atoms, scope: Scope, bound: nat, ss: seq<Schema>, probes: seq<Json>): seq<seq<Verdict>>
    decreases bound, ss, 0
  {
    if ss == [] then []
    else [EvalEach(atoms, scope, bound, ss[0], probes)] + EvalList(atoms, scope, bound, ss[1..], probes)
  }

  function EvalNamed(atoms: Atoms, scope: Scope, bound: nat, ns: seq<Named>, probes: seq<Json>): seq<seq<Verdict>>
    decreases bound, ns, 0
  {
    if ns == [] then []
    else [EvalEach(atoms, scope, bound, ns[0].schema, probes)] + EvalNamed(atoms, scope, bound, ns[1..], probes)
  }

  function EvalEach(atoms: Atoms, scope: Scope, bound: nat, s: Schema, probes: seq<Json>): (r: seq<Verdict>)
    ensures |r| == |probes|
    decreases bound, s, 2 + |probes|
  {
    if probes == [] then []
    else [Eval(atoms, scope, bound, s, probes[0])] + EvalEach(atoms, scope, bound, s, probes[1..])
  }

  /******* The choice of ranks does not matter *******/

  // Every reference of a schema leads to a definition of rank below `bound`.
  ghost predicate Below(scope: Scope, refs: set<string>, bound: nat) {
    forall r :: r in refs ==>
      var id := Target(scope, r);
      id.Some? && id.value in scope.rank && scope.rank[id.value] < bound
  }

  // The ranks certify that references descend.
  ghost predicate Ranked(scope: Scope) {
    forall id :: id in scope.defs ==> id in scope.rank && Below(scope, Refs(scope.defs[id]), scope.rank[id])
  }

  lemma {:induction false} RankDoesNotMatter(atoms: Atoms, a: Scope, b: Scope, i: nat, j: nat, s: Schema, inst: Json)
    requires a.prefix == b.prefix && a.defs == b.defs && Ranked(a) && Ranked(b)
    requires Below(a, Refs(s), i) && Below(b, Refs(s), j)
    ensures Eval(atoms, a, i, s, inst) == Eval(atoms, b, j, s, inst)
    decreases i, s, 1
  {
    hide Judge;
    if s.Node? {
      if s.ref.Some? {
        assert s.ref.value in Refs(s);
        var id := Target(a, s.ref.value).value;
        RankDoesNotMatter(atoms, a, b, a.rank[id], b.rank[id], a.defs[id], inst);
      }
      RankDoesNotMatterAll(atoms, a, b, i, j, s.applicators, inst);
    }
  }

  lemma {:induction false} RankDoesNotMatterAll(atoms: Atoms, a: Scope, b: Scope, i: nat, j: nat, aps: seq<Applicator>, inst: Json)
    requires a.prefix == b.prefix && a.defs == b.defs && Ranked(a) && Ranked(b)
    requires Below(a, ApplicatorRefs(aps), i) && Below(b, ApplicatorRefs(aps), j)
    ensures EvalAll(atoms, a, i, aps, inst) == EvalAll(atoms, b, j, aps, inst)
    decreases i, aps, 0
  {
    if aps != [] {
      hide Ranked, Eval, EvalList, EvalNamed, EvalEach;
      var ap := aps[0];
      if ap.Map? {
        RankDoesNotMatterNamed(atoms, a, b, i, j, ap.entries, MapProbes(ap.mapKind, inst));
      } else if ap.List? {
        RankDoesNotMatterList(atoms, a, b, i, j, ap.schemas, ListProbes(ap.listKind, inst));
      } else {
        assert ap.schema < ap;
        RankDoesNotMatterEach(atoms, a, b, i, j, ap.schema, SingleProbes(ap.singleKind, inst));
      }
      RankDoesNotMatterAll(atoms, a, b, i, j, aps[1..], inst);
    }
  }

  lemma {:induction false} RankDoesNotMatterList(atoms: Atoms, a: Scope, b: Scope, i: nat, j: nat, ss: seq<Schema>, probes: seq<Json>)
    requires a.prefix == b.prefix && a.defs == b.defs && Ranked(a) && Ranked(b)
    requires Below(a, ListRefs(ss), i) && Below(b, ListRefs(ss), j)
    ensures EvalList(atoms, a, i, ss, probes) == EvalList(atoms, b, j, ss, probes)
    decreases i, ss, 0
  {
    if ss != [] {
      hide Ranked, Eval, EvalEach;
      RankDoesNotMatterEach(atoms, a, b, i, j, ss[0], probes);
      RankDoesNotMatterList(atoms, a, b, i, j, ss[1..], probes);
    }
  }

  lemma {:induction false} RankDoesNotMatterNamed(atoms: Atoms, a: Scope, b: Scope, i: nat, j: nat, ns: seq<Named>, probes: seq<Json>)
    requires a.prefix == b.prefix && a.defs == b.defs && Ranked(a) && Ranked(b)
    requires Below(a, NamedRefs(ns), i) && Below(b, NamedRefs(ns), j)
    ensures EvalNamed(atoms, a, i, ns, probes) == EvalNamed(atoms, b, j, ns, probes)
    decreases i, ns, 0
  {
    if ns != [] {
      hide Ranked, Eval, EvalEach;
      RankDoesNotMatterEach(atoms, a, b, i, j, ns[0].schema, probes);
      RankDoesNotMatterNamed(atoms, a, b, i, j, ns[1..], probes);
    }
  }

  lemma {:induction false} RankDoesNotMatterEach(atoms: Atoms, a: Scope, b: Scope, i: nat, j: nat, s: Schema, probes: seq<Json>)
    requires a.prefix == b.prefix && a.defs == b.defs && Ranked(a) && Ranked(b)
    requires Below(a, Refs(s), i) && Below(b, Refs(s), j)
    ensures EvalEach(atoms, a, i, s, probes) == EvalEach(atoms, b, j, s, probes)
    decreases i, s, 2 + |probes|
  {
    if probes != [] {
      hide Ranked, Eval;
      RankDoesNotMatter(atoms, a, b, i, j, s, probes[0]);
      RankDoesNotMatterEach(atoms, a, b, i, j, s, probes[1..]);
    }
  }

  /******* Rewriting preserves meaning *******/

  // `local` holds the rewritten resources of a set of identifiers that is closed under reference.
  ghost predicate LocalCopy(registry: Scope, local: Scope) {
    && registry.prefix == "" && local.prefix == LOCAL && local.rank == registry.rank
    && forall id :: id in local.defs ==>
         id in registry.defs && local.defs[id] == Rewrite(registry.defs[id]) && Refs(registry.defs[id]) <= local.defs.Keys
  }

  lemma LocalTarget(registry: Scope, local: Scope, id: string)
    requires LocalCopy(registry, local) && id in local.defs
    ensures Target(registry, id) == Some(id) && Target(local, LOCAL + id) == Some(id)
  {
    assert id[..0] == "" && id[0..] == id;
    assert (LOCAL + id)[..|LOCAL|] == LOCAL && (LOCAL + id)[|LOCAL|..] == id;
  }

  // Dropping `$id` and rebasing every `$ref` leaves the verdict on every instance unchanged.
  lemma {:induction false} RewritePreserves(atoms: Atoms, registry: Scope, local: Scope, bound: nat, s: Schema, inst: Json)
    requires LocalCopy(registry, local) && Refs(s) <= local.defs.Keys
    ensures Eval(atoms, local, bound, Rewrite(s), inst) == Eval(atoms, registry, bound, s, inst)
    decreases bound, s, 1
  {
    hide Judge;
    if s.Node? {
      if s.ref.Some? {
        assert s.ref.value in Refs(s);
        var id := s.ref.value;
        LocalTarget(registry, local, id);
        if id in registry.rank && registry.rank[id] < bound {
          RewritePreserves(atoms, registry, local, registry.rank[id], registry.defs[id], inst);
        }
      }
      RewritePreservesAll(atoms, registry, local, bound, s.applicators, inst);
    }
  }

  lemma {:induction false} RewritePreservesAll(atoms: Atoms, registry: Scope, local: Scope, bound: nat, aps: seq<Applicator>, inst: Json)
    requires LocalCopy(registry, local) && ApplicatorRefs(aps) <= local.defs.Keys
    ensures EvalAll(atoms, local, bound, RewriteAll(aps), inst) == EvalAll(atoms, registry, bound, aps, inst)
    decreases bound, aps, 0
  {
    if aps != [] {
      hide LocalCopy, Eval, EvalList, EvalNamed, EvalEach, Rewrite, RewriteList, RewriteNamed;
      var ap := aps[0];
      assert RewriteAll(aps)[1..] == RewriteAll(aps[1..]);
      if ap.Map? {
        RewritePreservesNamed(atoms, registry, local, bound, ap.entries, MapProbes(ap.mapKind, inst));
      } else if ap.List? {
        RewritePreservesList(atoms, registry, local, bound, ap.schemas, ListProbes(ap.listKind, inst));
      } else {
        assert ap.schema < ap;
        RewritePreservesEach(atoms, registry, local, bound, ap.schema, SingleProbes(ap.singleKind, inst));
      }
      RewritePreservesAll(atoms, registry, local, bound, aps[1..], inst);
    }
  }

  lemma {:induction false} RewritePreservesList(atoms: Atoms, registry: Scope, local: Scope, bound: nat, ss: seq<Schema>, probes: seq<Json>)
    requires LocalCopy(registry, local) && ListRefs(ss) <= local.defs.Keys
    ensures EvalList(atoms, local, bound, RewriteList(ss), probes) == EvalList(atoms, registry, bound, ss, probes)
    decreases bound, ss, 0
  {
    if ss != [] {
      hide LocalCopy, Eval, EvalEach, Rewrite;
      assert RewriteList(ss)[1..] == RewriteList(ss[1..]);
      RewritePreservesEach(atoms, registry, local, bound, ss[0], probes);
      RewritePreservesList(atoms, registry, local, bound, ss[1..], probes);
    }
  }

  lemma {:induction false} RewritePreservesNamed(atoms: Atoms, registry: Scope, local: Scope, bound: nat, ns: seq<Named>, probes: seq<Json>)
    requires LocalCopy(registry, local) && NamedRefs(ns) <= local.defs.Keys
    ensures EvalNamed(atoms, local, bound, RewriteNamed(ns), probes) == EvalNamed(atoms, registry, bound, ns, probes)
    decreases bound, ns, 0
  {
    if ns != [] {
      hide LocalCopy, Eval, EvalEach, Rewrite;
      assert RewriteNamed(ns)[1..] == RewriteNamed(ns[1..]);
      RewritePreservesEach(atoms, registry, local, bound, ns[0].schema, probes);
      RewritePreservesNamed(atoms, registry, local, bound, ns[1..], probes);
    }
  }

  lemma {:induction false} RewritePreservesEach(atoms: Atoms, registry: Scope, local: Scope, bound: nat, s: Schema, probes: seq<Json>)
    requires LocalCopy(registry, local) && Refs(s) <= local.defs.Keys
    ensures EvalEach(atoms, local, bound, Rewrite(s), probes) == EvalEach(atoms, registry, bound, s, probes)
    decreases bound, s, 2 + |probes|
  {
    if probes != [] {
      hide LocalCopy, Eval, Rewrite;
      RewritePreserves(atoms, registry, local, bound, s, probes[0]);
      RewritePreservesEach(atoms, registry, local, bound, s, probes[1..]);
    }
  }

  /******* A local reference is a JSON pointer *******/

  // The reference tokens of a pointer (section 4 of RFC 6901): split at '/', then ~1 and ~0 unescaped.
  function Tokens(s: string): seq<string> {
    if s == "" then [""]
    else if s[0] == '/' then [""] + Tokens(s[1..])
    else
      var rest := Tokens(s[1..]);
      if rest == [] then [[s[0]]] else [[s[0]] + rest[0]] + rest[1..]
  }

  function Unescape(s: string): string {
    if s == "" then ""
    else if s[0] == '~' && |s| > 1 && s[1] == '1' then "/" + Unescape(s[2..])
    else if s[0] == '~' && |s| > 1 && s[1] == '0' then "~" + Unescape(s[2..])
    else [s[0]] + Unescape(s[1..])
  }

  lemma {:induction false} PlainToken(id: string)
    requires forall i :: 0 <= i < |id| ==> IdChar(id[i])
    ensures Tokens(id) == [id] && Unescape(id) == id && '%' !in id
  {
    if id != "" {
      PlainToken(id[1..]);
      assert id == [id[0]] + id[1..];
      assert [id[1..]][1..] == [];
    }
  }

  // "#/$defs/<id>" names exactly the member <id> of the member "$defs" of the document: an identifier
  // needs no pointer escape and no percent encoding.
  lemma LocalReferencePointsIntoDefs(id: string)
    requires ValidId(id)
    ensures Tokens((LOCAL + id)[1..]) == ["", "$defs", id] && Unescape(id) == id && '%' !in LOCAL + id
  {
    hide Tokens, Unescape;
    PlainToken(id);
    var t := ['/'] + id;
    AfterSlash(id);
    assert Tokens(t) == ["", id];
    Prefixed("$defs", t, id);
    AfterSlash("$defs" + t);
    assert (LOCAL + id)[1..] == ['/'] + ("$defs" + t);
  }

  lemma AfterSlash(t: string)
    ensures Tokens(['/'] + t) == [""] + Tokens(t)
  {
    assert (['/'] + t)[1..] == t;
  }

  lemma {:induction false} Prefixed(name: string, t: string, id: string)
    requires '/' !in name && Tokens(t) == ["", id]
    ensures Tokens(name + t) == [name, id]
  {
    if name == "" {
      assert name + t == t;
    } else {
      assert (name + t)[1..] == name[1..] + t;
      Prefixed(name[1..], t, id);
      assert [name[1..], id][1..] == [id];
      assert [name[0]] + name[1..] == name;
    }
  }
}
