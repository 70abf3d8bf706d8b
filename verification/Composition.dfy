/**
 The two validators of a composition manifest: artifact_pins, which fetches the pinned wheels, and _pinned,
 which attests what was installed.

 A manifest is modelled once its JSON shape is right: its locks and descriptors have their fields, and these
 are strings.  `wheel` is the file name that both read from a repository and an artifact URL.
 */
module Composition {
  import opened Basics
  import opened JsonSyntax

  const ADAPTER := "adapter"
  const OWNER_DEPENDENCY := "owner-dependency"
  const SHARED_DEPENDENCY := "shared-dependency"
  const SHARED_SOURCE := "https://github.com/bayleafwalker/vuoro"
  const SHARED_DISTRIBUTIONS := {"vuoro-schema-runtime", "vuoro-adapter-kit"}
  const DOMAINS := {"work", "audit", "knowledge"}
  const SCHEMA_VERSION := "vuoro-composition/v3"

  datatype Lock = Lock(
    id: string, kind: string, sourceRepository: string, sourceRevision: string,
    artifactUrl: string, artifactSha256: string, distribution: string, version: string)

  datatype Descriptor = Descriptor(
    domain: string, lockId: string, dependencies: seq<string>,
    adapterModule: string, register: string, apiVersion: string, schemaVersion: string)

  datatype Manifest = Manifest(
    otherKeys: set<string>, schemaVersion: string, locks: seq<Lock>, descriptors: seq<Descriptor>)

  type Wheel = (string, string) -> Outcome<string>

  predicate HexText(s: string, n: nat) {
    |s| == n && forall i :: 0 <= i < n ==> '0' <= s[i] <= '9' || 'a' <= s[i] <= 'f'
  }

  /******* Locks *******/

  predicate LockOk(l: Lock, wheel: Wheel) {
    && l.id != "" && l.kind != "" && l.sourceRepository != "" && l.sourceRevision != "" && l.artifactUrl != ""
    && l.artifactSha256 != "" && l.distribution != "" && l.version != ""
    && (l.kind == ADAPTER || l.kind == OWNER_DEPENDENCY || l.kind == SHARED_DEPENDENCY)
    && HexText(l.sourceRevision, 40) && HexText(l.artifactSha256, 64)
    && WheelOf(l, wheel).Yes?
  }

  // Two locks with one file name carry one digest, and no two share an identifier or a distribution.
  predicate Compatible(a: Lock, b: Lock, wheel: Wheel) {
    && a.id != b.id && a.distribution != b.distribution
    && (WheelOf(a, wheel) == WheelOf(b, wheel) ==> a.artifactSha256 == b.artifactSha256)
  }

  predicate LocksOk(locks: seq<Lock>, wheel: Wheel) {
    && (forall i :: 0 <= i < |locks| ==> LockOk(locks[i], wheel))
    && (forall i, j :: 0 <= i < j < |locks| ==> Compatible(locks[i], locks[j], wheel))
  }

  function ById(locks: seq<Lock>): map<string, Lock> {
    if locks == [] then map[] else ById(locks[..|locks| - 1])[locks[|locks| - 1].id := locks[|locks| - 1]]
  }

  lemma {:induction false} ByIdExact(locks: seq<Lock>)
    requires forall i, j :: 0 <= i < j < |locks| ==> locks[i].id != locks[j].id
    ensures forall i :: 0 <= i < |locks| ==> locks[i].id in ById(locks) && ById(locks)[locks[i].id] == locks[i]
    ensures forall id :: id in ById(locks) ==> ById(locks)[id].id == id && ById(locks)[id] in locks
  {
    if locks != [] {
      var front, last := locks[..|locks| - 1], locks[|locks| - 1];
      ByIdExact(front);
      assert locks == front + [last];
    }
  }

  lemma {:induction false} ByIdKeys(locks: seq<Lock>, id: string)
    ensures id in ById(locks) <==> exists i :: 0 <= i < |locks| && locks[i].id == id
  {
    if locks != [] {
      var front, last := locks[..|locks| - 1], locks[|locks| - 1];
      ByIdKeys(front, id);
      assert locks == front + [last];
      if i :| 0 <= i < |front| && front[i].id == id {
        assert locks[i].id == id;
      }
    }
  }

  function Distributions(locks: seq<Lock>): set<string> {
    if locks == [] then {} else Distributions(locks[..|locks| - 1]) + {locks[|locks| - 1].distribution}
  }

  function WheelOf(l: Lock, wheel: Wheel): Outcome<string> { wheel(l.sourceRepository, l.artifactUrl) }

  function Digests(locks: seq<Lock>, wheel: Wheel): map<string, string>
    requires forall i :: 0 <= i < |locks| ==> WheelOf(locks[i], wheel).Yes?
  {
    if locks == [] then map[]
    else
      var last := locks[|locks| - 1];
      Digests(locks[..|locks| - 1], wheel)[WheelOf(last, wheel).value := last.artifactSha256]
  }

  lemma {:induction false} DistributionsExact(locks: seq<Lock>, d: string)
    ensures d in Distributions(locks) <==> exists i :: 0 <= i < |locks| && locks[i].distribution == d
  {
    if locks != [] {
      var front, last := locks[..|locks| - 1], locks[|locks| - 1];
      DistributionsExact(front, d);
      assert locks == front + [last];
      if i :| 0 <= i < |front| && front[i].distribution == d {
        assert locks[i].distribution == d;
      }
    }
  }

  lemma {:induction false} DigestsExact(locks: seq<Lock>, wheel: Wheel, f: string)
    requires forall i :: 0 <= i < |locks| ==> WheelOf(locks[i], wheel).Yes?
    requires forall i, j :: 0 <= i < j < |locks| ==> Compatible(locks[i], locks[j], wheel)
    ensures f in Digests(locks, wheel) <==> exists i :: 0 <= i < |locks| && WheelOf(locks[i], wheel) == Yes(f)
    ensures forall i :: 0 <= i < |locks| && WheelOf(locks[i], wheel) == Yes(f) ==>
      f in Digests(locks, wheel) && Digests(locks, wheel)[f] == locks[i].artifactSha256
  {
    if locks != [] {
      var front, last := locks[..|locks| - 1], locks[|locks| - 1];
      DigestsExact(front, wheel, f);
      assert locks == front + [last];
      if i :| 0 <= i < |front| && WheelOf(front[i], wheel) == Yes(f) {
        assert WheelOf(locks[i], wheel) == Yes(f);
      }
    }
  }

  // What the pass over the locks has collected.
  ghost predicate Collected(
    locks: seq<Lock>, wheel: Wheel, byId: map<string, Lock>, distributions: set<string>, digests: map<string, string>)
  {
    && LocksOk(locks, wheel) && byId == ById(locks) && distributions == Distributions(locks)
    && digests == Digests(locks, wheel)
  }

  // The tests of the loop body are the conditions for one more lock.
  lemma OneMore(locks: seq<Lock>, l: Lock, wheel: Wheel)
    requires LocksOk(locks, wheel) && LockOk(l, wheel)
    ensures var f := WheelOf(l, wheel).value;
      LocksOk(locks + [l], wheel) <==>
      l.distribution !in Distributions(locks) && l.id !in ById(locks)
      && (f in Digests(locks, wheel) ==> Digests(locks, wheel)[f] == l.artifactSha256)
  {
    hide LockOk, ById, Distributions, Digests;
    WheelNamed(l, wheel);
    var f := WheelOf(l, wheel).value;
    assert forall i :: 0 <= i < |locks| ==> WheelOf(locks[i], wheel).Yes? by {
      forall i | 0 <= i < |locks| ensures WheelOf(locks[i], wheel).Yes? { WheelNamed(locks[i], wheel); }
    }
    ByIdKeys(locks, l.id);
    DistributionsExact(locks, l.distribution);
    DigestsExact(locks, wheel, f);
    AppendOk(locks, l, wheel);
  }

  lemma AppendOk(locks: seq<Lock>, l: Lock, wheel: Wheel)
    requires LocksOk(locks, wheel) && LockOk(l, wheel)
    ensures LocksOk(locks + [l], wheel) <==> forall i :: 0 <= i < |locks| ==> Compatible(locks[i], l, wheel)
  {
    hide LockOk, Compatible;
    var all := locks + [l];
    assert all[|locks|] == l;
    if LocksOk(all, wheel) {
      forall i | 0 <= i < |locks| ensures Compatible(locks[i], l, wheel) {
        assert Compatible(all[i], all[|locks|], wheel);
      }
    }
  }

  lemma WheelNamed(l: Lock, wheel: Wheel)
    requires LockOk(l, wheel)
    ensures WheelOf(l, wheel).Yes?
  {
  }

  lemma StillCollected(
    locks: seq<Lock>, l: Lock, wheel: Wheel, byId: map<string, Lock>, distributions: set<string>, digests: map<string, string>)
    requires Collected(locks, wheel, byId, distributions, digests) && LocksOk(locks + [l], wheel)
    ensures WheelOf(l, wheel).Yes?
    ensures Collected(locks + [l], wheel, byId[l.id := l], distributions + {l.distribution},
                      digests[WheelOf(l, wheel).value := l.artifactSha256])
  {
    var all := locks + [l];
    assert all[..|all| - 1] == locks && all[|locks|] == l;
    assert LockOk(all[|locks|], wheel);
  }

  // The pass of artifact_pins over the release locks.
  method FetchLocks(locks: seq<Lock>, wheel: Wheel) returns (r: Outcome<map<string, Lock>>)
    ensures r == if LocksOk(locks, wheel) then Yes(ById(locks)) else No
  {
    hide LocksOk, LockOk, Collected, ById, Distributions, Digests;
    var byId: map<string, Lock>, distributions: set<string>, digests: map<string, string> := map[], {}, map[];
    NothingCollected(wheel);
    var i := 0;
    while i < |locks|
      invariant 0 <= i <= |locks| && Collected(locks[..i], wheel, byId, distributions, digests)
    {
      var l := locks[i];
      assert locks[..i + 1] == locks[..i] + [l];
      PrefixOk(locks, wheel, i + 1);
      if !LockOk(l, wheel) {
        return No;
      }
      WheelNamed(l, wheel);
      CollectedMeans(locks[..i], wheel, byId, distributions, digests);
      OneMore(locks[..i], l, wheel);
      var f := WheelOf(l, wheel).value;
      if l.distribution in distributions || (f in digests && digests[f] != l.artifactSha256) || l.id in byId {
        return No;
      }
      StillCollected(locks[..i], l, wheel, byId, distributions, digests);
      distributions, digests, byId := distributions + {l.distribution}, digests[f := l.artifactSha256], byId[l.id := l];
      i := i + 1;
    }
    assert locks[..i] == locks;
    CollectedMeans(locks, wheel, byId, distributions, digests);
    return Yes(byId);
  }

  lemma CollectedMeans(
    locks: seq<Lock>, wheel: Wheel, byId: map<string, Lock>, distributions: set<string>, digests: map<string, string>)
    requires Collected(locks, wheel, byId, distributions, digests)
    ensures LocksOk(locks, wheel) && byId == ById(locks) && distributions == Distributions(locks)
    ensures (forall i :: 0 <= i < |locks| ==> WheelOf(locks[i], wheel).Yes?) && digests == Digests(locks, wheel)
  {
  }

  lemma NothingCollected(wheel: Wheel)
    ensures Collected([], wheel, map[], {}, map[])
  {
  }

  // A prefix of good locks is good, and so is its last lock.
  lemma PrefixOk(locks: seq<Lock>, wheel: Wheel, n: nat)
    requires 0 < n <= |locks|
    ensures LocksOk(locks, wheel) ==> LocksOk(locks[..n], wheel)
    ensures LocksOk(locks[..n], wheel) ==> LockOk(locks[n - 1], wheel)
  {
    assert locks[..n][n - 1] == locks[n - 1];
  }

  // The pass of _pinned over them, with a set of identifiers of its own.
  method AttestLocks(locks: seq<Lock>, wheel: Wheel) returns (r: Outcome<map<string, Lock>>)
    ensures r == if LocksOk(locks, wheel) then Yes(ById(locks)) else No
  {
    hide LocksOk, LockOk, Collected, ById, Distributions, Digests;
    var ids: set<string>, byId: map<string, Lock>, distributions: set<string>, digests: map<string, string> := {}, map[], {}, map[];
    NothingCollected(wheel);
    var i := 0;
    while i < |locks|
      invariant 0 <= i <= |locks| && Collected(locks[..i], wheel, byId, distributions, digests) && ids == byId.Keys
    {
      var l := locks[i];
      assert locks[..i + 1] == locks[..i] + [l];
      PrefixOk(locks, wheel, i + 1);
      if !LockOk(l, wheel) {
        return No;
      }
      WheelNamed(l, wheel);
      CollectedMeans(locks[..i], wheel, byId, distributions, digests);
      OneMore(locks[..i], l, wheel);
      var f := WheelOf(l, wheel).value;
      if f in digests && digests[f] != l.artifactSha256 {
        return No;
      }
      if l.id in ids || l.distribution in distributions {
        return No;
      }
      StillCollected(locks[..i], l, wheel, byId, distributions, digests);
      ids, distributions := ids + {l.id}, distributions + {l.distribution};
      digests, byId := digests[f := l.artifactSha256], byId[l.id := l];
      i := i + 1;
    }
    assert locks[..i] == locks;
    CollectedMeans(locks, wheel, byId, distributions, digests);
    return Yes(byId);
  }

  /******* References *******/

  predicate DependencyOk(id: string, primary: Lock, byId: map<string, Lock>) {
    && id in byId && byId[id].kind != ADAPTER
    && (if byId[id].kind == OWNER_DEPENDENCY then byId[id].sourceRepository == primary.sourceRepository
        else byId[id].sourceRepository == SHARED_SOURCE && byId[id].distribution in SHARED_DISTRIBUTIONS)
  }

  predicate ReferencesOk(d: Descriptor, byId: map<string, Lock>) {
    && Distinct(d.dependencies) && d.lockId !in d.dependencies
    && d.lockId in byId && byId[d.lockId].kind == ADAPTER
    && forall i :: 0 <= i < |d.dependencies| ==> DependencyOk(d.dependencies[i], byId[d.lockId], byId)
  }

  function Primaries(ds: seq<Descriptor>, id: string): nat {
    if ds == [] then 0 else Primaries(ds[..|ds| - 1], id) + if ds[|ds| - 1].lockId == id then 1 else 0
  }

  function Dependents(ds: seq<Descriptor>, id: string): nat {
    if ds == [] then 0 else Dependents(ds[..|ds| - 1], id) + if id in ds[|ds| - 1].dependencies then 1 else 0
  }

  predicate CountsOk(l: Lock, primaries: nat, dependents: nat) {
    && (l.kind == ADAPTER ==> primaries == 1 && dependents == 0)
    && (l.kind == OWNER_DEPENDENCY ==> dependents == 1)
    && (l.kind == SHARED_DEPENDENCY ==> dependents > 0)
  }

  function Get(m: map<string, nat>, id: string): nat { if id in m then m[id] else 0 }

  datatype Tables = Tables(primaries: map<string, nat>, dependents: map<string, nat>, referenced: set<string>)

  // The tables count the references of the descriptors seen so far.
  ghost predicate Counted(ds: seq<Descriptor>, t: Tables) {
    && (forall id :: Get(t.primaries, id) == Primaries(ds, id))
    && (forall id :: Get(t.dependents, id) == Dependents(ds, id))
    && (forall id :: id in t.referenced <==> Primaries(ds, id) + Dependents(ds, id) > 0)
  }

  lemma CountOneMore(ds: seq<Descriptor>, d: Descriptor)
    ensures forall id :: Primaries(ds + [d], id) == Primaries(ds, id) + if d.lockId == id then 1 else 0
    ensures forall id :: Dependents(ds + [d], id) == Dependents(ds, id) + if id in d.dependencies then 1 else 0
  {
    assert (ds + [d])[..|ds + [d]| - 1] == ds;
  }

  // One descriptor: both validators run these tests on its references and enter them in their tables.
  method Refer(d: Descriptor, byId: map<string, Lock>, t: Tables, ghost ds: seq<Descriptor>) returns (r: Outcome<Tables>)
    requires Counted(ds, t)
    ensures r.Yes? <==> ReferencesOk(d, byId)
    ensures r.Yes? ==> Counted(ds + [d], r.value)
  {
    if !Distinct(d.dependencies) || d.lockId in d.dependencies {
      return No;
    }
    if d.lockId !in byId || byId[d.lockId].kind != ADAPTER {
      return No;
    }
    var primary := byId[d.lockId];
    var primaries: map<string, nat> := t.primaries[d.lockId := Get(t.primaries, d.lockId) + 1];
    CountOneMore(ds, d);
    hide Primaries, Dependents, DependencyOk;
    var ok, dependents, referenced := Depend(d.dependencies, primary, byId, t.dependents, t.referenced + {d.lockId});
    return if ok then Yes(Tables(primaries, dependents, referenced)) else No;
  }

  // The dependencies of one descriptor, entered one by one.
  method Depend(ids: seq<string>, primary: Lock, byId: map<string, Lock>, before: map<string, nat>, known: set<string>)
    returns (ok: bool, dependents: map<string, nat>, referenced: set<string>)
    requires Distinct(ids)
    ensures ok <==> forall i :: 0 <= i < |ids| ==> DependencyOk(ids[i], primary, byId)
    ensures ok ==> forall id :: Get(dependents, id) == Get(before, id) + if id in ids then 1 else 0
    ensures ok ==> forall id :: id in referenced <==> id in known || id in ids
  {
    hide DependencyOk;
    dependents, referenced := before, known;
    var j := 0;
    while j < |ids|
      invariant 0 <= j <= |ids|
      invariant forall i :: 0 <= i < j ==> DependencyOk(ids[i], primary, byId)
      invariant forall id :: Get(dependents, id) == Get(before, id) + if id in ids[..j] then 1 else 0
      invariant forall id :: id in referenced <==> id in known || id in ids[..j]
    {
      var id := ids[j];
      if !DependencyOk(id, primary, byId) {
        return false, dependents, referenced;
      }
      assert ids[..j + 1] == ids[..j] + [id];
      assert id !in ids[..j];
      dependents := dependents[id := Get(dependents, id) + 1];
      referenced := referenced + {id};
      j := j + 1;
    }
    assert ids[..j] == ids;
    return true, dependents, referenced;
  }

  lemma NothingCounted()
    ensures Counted([], Tables(map[], map[], {}))
  {
  }

  ghost predicate AllReferencesOk(ds: seq<Descriptor>, byId: map<string, Lock>) {
    forall i :: 0 <= i < |ds| ==> ReferencesOk(ds[i], byId)
  }

  ghost predicate AllCountsOk(locks: seq<Lock>, ds: seq<Descriptor>) {
    forall i :: 0 <= i < |locks| ==> CountsOk(locks[i], Primaries(ds, locks[i].id), Dependents(ds, locks[i].id))
  }

  // The closing tests on the counts, and the search for locks that nothing refers to.
  method Close(locks: seq<Lock>, t: Tables, ghost ds: seq<Descriptor>) returns (countsOk: bool, orphans: bool)
    requires Counted(ds, t)
    ensures countsOk <==> AllCountsOk(locks, ds)
    ensures orphans <==> t.referenced != set l | l in locks :: l.id
  {
    orphans := t.referenced != set l | l in locks :: l.id;
    var i := 0;
    while i < |locks|
      invariant 0 <= i <= |locks| && AllCountsOk(locks[..i], ds)
    {
      var l := locks[i];
      if !CountsOk(l, Get(t.primaries, l.id), Get(t.dependents, l.id)) {
        return false, orphans;
      }
      assert locks[..i + 1] == locks[..i] + [l];
      i := i + 1;
    }
    assert locks[..i] == locks;
    return true, orphans;
  }

  lemma {:induction false} ReferencedByOne(ds: seq<Descriptor>, id: string)
    ensures Primaries(ds, id) > 0 <==> exists i :: 0 <= i < |ds| && ds[i].lockId == id
    ensures Dependents(ds, id) > 0 <==> exists i :: 0 <= i < |ds| && id in ds[i].dependencies
  {
    if ds != [] {
      var front, last := ds[..|ds| - 1], ds[|ds| - 1];
      ReferencedByOne(front, id);
      assert ds == front + [last];
      if exists i :: 0 <= i < |front| && front[i].lockId == id {
        var i :| 0 <= i < |front| && front[i].lockId == id;
        assert ds[i].lockId == id;
      }
      if exists i :: 0 <= i < |front| && id in front[i].dependencies {
        var i :| 0 <= i < |front| && id in front[i].dependencies;
        assert id in ds[i].dependencies;
      }
    }
  }

  // The counts alone rule out orphans: the last test of both validators never fires.
  lemma NoOrphans(locks: seq<Lock>, ds: seq<Descriptor>, t: Tables, wheel: Wheel)
    requires LocksOk(locks, wheel) && AllReferencesOk(ds, ById(locks)) && AllCountsOk(locks, ds) && Counted(ds, t)
    ensures t.referenced == set l | l in locks :: l.id
  {
    hide LockOk, ById, Primaries, Dependents;
    ByIdExact(locks);
    forall id | id in t.referenced ensures id in set l | l in locks :: l.id {
      ReferenceKnown(ds, id, ById(locks));
      assert ById(locks)[id] in locks;
    }
    forall l | l in locks ensures l.id in t.referenced {
      var i :| 0 <= i < |locks| && locks[i] == l;
      assert LockOk(locks[i], wheel) && CountsOk(locks[i], Primaries(ds, l.id), Dependents(ds, l.id));
      KnownKind(l, wheel);
    }
  }

  lemma KnownKind(l: Lock, wheel: Wheel)
    requires LockOk(l, wheel)
    ensures l.kind == ADAPTER || l.kind == OWNER_DEPENDENCY || l.kind == SHARED_DEPENDENCY
  {
  }

  lemma ReferenceKnown(ds: seq<Descriptor>, id: string, byId: map<string, Lock>)
    requires AllReferencesOk(ds, byId) && Primaries(ds, id) + Dependents(ds, id) > 0
    ensures id in byId
  {
    hide Primaries, Dependents;
    ReferencedByOne(ds, id);
    if Primaries(ds, id) > 0 {
      var i :| 0 <= i < |ds| && ds[i].lockId == id;
      assert ReferencesOk(ds[i], byId);
    } else {
      var i :| 0 <= i < |ds| && id in ds[i].dependencies;
      assert ReferencesOk(ds[i], byId);
      var j :| 0 <= j < |ds[i].dependencies| && ds[i].dependencies[j] == id;
      assert DependencyOk(id, byId[ds[i].lockId], byId);
    }
  }

  /******* The validators *******/

  function Domains(ds: seq<Descriptor>): seq<string> {
    seq(|ds|, i requires 0 <= i < |ds| => ds[i].domain)
  }

  predicate DescriptorFilled(d: Descriptor) {
    && d.domain != "" && d.lockId != "" && d.adapterModule != "" && d.register != ""
    && d.apiVersion != "" && d.schemaVersion != ""
    && forall i :: 0 <= i < |d.dependencies| ==> d.dependencies[i] != ""
  }

  predicate AllFilled(ds: seq<Descriptor>) { forall i :: 0 <= i < |ds| ==> DescriptorFilled(ds[i]) }

  function NameSet(s: seq<string>): set<string> { set x | x in s }

  // What both demand of the locks and of the references to them.
  ghost predicate Linked(m: Manifest, wheel: Wheel) {
    && LocksOk(m.locks, wheel) && AllReferencesOk(m.descriptors, ById(m.locks)) && AllCountsOk(m.locks, m.descriptors)
  }

  ghost predicate FetchAccepts(m: Manifest, wheel: Wheel) {
    && m.otherKeys == {} && m.schemaVersion == SCHEMA_VERSION
    && Distinct(Domains(m.descriptors)) && NameSet(Domains(m.descriptors)) == DOMAINS
    && AllFilled(m.descriptors) && Linked(m, wheel)
  }

  ghost predicate AttestAccepts(m: Manifest, wheel: Wheel, domains: set<string>) {
    && m.schemaVersion == SCHEMA_VERSION && |m.descriptors| == |domains|
    && Distinct(Domains(m.descriptors)) && NameSet(Domains(m.descriptors)) == domains
    && Linked(m, wheel)
  }

  method ArtifactPins(m: Manifest, wheel: Wheel) returns (r: Outcome<seq<Lock>>)
    ensures r == if FetchAccepts(m, wheel) then Yes(m.locks) else No
  {
    hide LocksOk, ById, ReferencesOk, AllCountsOk, Counted, DescriptorFilled;
    if m.otherKeys != {} || m.schemaVersion != SCHEMA_VERSION {
      return No;
    }
    var byId := FetchLocks(m.locks, wheel);
    if byId.No? {
      return No;
    }
    var ds := m.descriptors;
    if !Distinct(Domains(ds)) || !(DOMAINS <= NameSet(Domains(ds)) <= DOMAINS) {
      return No;
    }
    var t, i := Tables(map[], map[], {}), 0;
    NothingCounted();
    while i < |ds|
      invariant 0 <= i <= |ds| && Counted(ds[..i], t)
      invariant forall j :: 0 <= j < i ==> DescriptorFilled(ds[j]) && ReferencesOk(ds[j], byId.value)
    {
      if !DescriptorFilled(ds[i]) {
        return No;
      }
      var next := Refer(ds[i], byId.value, t, ds[..i]);
      if next.No? {
        return No;
      }
      assert ds[..i + 1] == ds[..i] + [ds[i]];
      t, i := next.value, i + 1;
    }
    assert ds[..i] == ds;
    var countsOk, orphans := Close(m.locks, t, ds);
    if !countsOk {
      return No;
    }
    NoOrphans(m.locks, ds, t, wheel);
    if orphans {
      return No;
    }
    return Yes(m.locks);
  }

  method Pinned(m: Manifest, wheel: Wheel, domains: set<string>) returns (r: Outcome<seq<Lock>>)
    ensures r == if AttestAccepts(m, wheel, domains) then Yes(m.locks) else No
  {
    hide LocksOk, ById, ReferencesOk, AllCountsOk, Counted;
    if m.schemaVersion != SCHEMA_VERSION {
      return No;
    }
    var byId := AttestLocks(m.locks, wheel);
    if byId.No? {
      return No;
    }
    var ds := m.descriptors;
    if |ds| != |domains| {
      return No;
    }
    if !Distinct(Domains(ds)) || NameSet(Domains(ds)) != domains {
      return No;
    }
    var t, i := Tables(map[], map[], {}), 0;
    NothingCounted();
    while i < |ds|
      invariant 0 <= i <= |ds| && Counted(ds[..i], t)
      invariant forall j :: 0 <= j < i ==> ReferencesOk(ds[j], byId.value)
    {
      var next := Refer(ds[i], byId.value, t, ds[..i]);
      if next.No? {
        return No;
      }
      assert ds[..i + 1] == ds[..i] + [ds[i]];
      t, i := next.value, i + 1;
    }
    assert ds[..i] == ds;
    var countsOk, orphans := Close(m.locks, t, ds);
    if !countsOk {
      return No;
    }
    NoOrphans(m.locks, ds, t, wheel);
    if orphans {
      return No;
    }
    return Yes(m.locks);
  }

  /******* What acceptance means *******/

  lemma {:induction false} DistinctSize(s: seq<string>)
    requires Distinct(s)
    ensures |NameSet(s)| == |s|
  {
    if s != [] {
      var front, last := s[..|s| - 1], s[|s| - 1];
      DistinctSize(front);
      assert s == front + [last];
      assert NameSet(s) == NameSet(front) + {last};
    }
  }

  // The fetcher accepts exactly the manifests the attester accepts that have no other keys and no empty value
  // in a descriptor; both then report the same locks in the same order.
  lemma FetchIsStricter(m: Manifest, wheel: Wheel)
    ensures FetchAccepts(m, wheel) <==>
      AttestAccepts(m, wheel, DOMAINS) && m.otherKeys == {} && AllFilled(m.descriptors)
  {
    hide Linked, DescriptorFilled;
    if Distinct(Domains(m.descriptors)) {
      DistinctSize(Domains(m.descriptors));
    }
  }

  lemma {:induction false} PrimaryUnique(ds: seq<Descriptor>, i: nat, j: nat)
    requires i < j < |ds| && ds[i].lockId == ds[j].lockId
    ensures Primaries(ds, ds[i].lockId) >= 2
  {
    var front, last, id := ds[..|ds| - 1], ds[|ds| - 1], ds[i].lockId;
    if j < |front| {
      PrimaryUnique(front, i, j);
    } else {
      assert front[i].lockId == id;
      ReferencedByOne(front, id);
    }
  }

  lemma {:induction false} DependentUnique(ds: seq<Descriptor>, i: nat, j: nat, id: string)
    requires i < j < |ds| && id in ds[i].dependencies && id in ds[j].dependencies
    ensures Dependents(ds, id) >= 2
  {
    var front, last := ds[..|ds| - 1], ds[|ds| - 1];
    if j < |front| {
      DependentUnique(front, i, j, id);
    } else {
      assert id in front[i].dependencies;
      ReferencedByOne(front, id);
    }
  }

  // The adapter lock of a descriptor, which no other descriptor names.
  lemma AdapterOf(m: Manifest, wheel: Wheel, i: nat) returns (k: nat)
    requires Linked(m, wheel) && i < |m.descriptors|
    ensures k < |m.locks| && m.locks[k].id == m.descriptors[i].lockId && m.locks[k].kind == ADAPTER
    ensures Primaries(m.descriptors, m.descriptors[i].lockId) == 1
  {
    hide LockOk, ById, Primaries, Dependents;
    var ds, byId := m.descriptors, ById(m.locks);
    ByIdExact(m.locks);
    assert ReferencesOk(ds[i], byId);
    k :| 0 <= k < |m.locks| && m.locks[k] == byId[ds[i].lockId];
    assert CountsOk(m.locks[k], Primaries(ds, m.locks[k].id), Dependents(ds, m.locks[k].id));
  }

  predicate NamesAdapter(locks: seq<Lock>, id: string) {
    exists k :: 0 <= k < |locks| && locks[k].id == id && locks[k].kind == ADAPTER
  }

  // Adapter locks and descriptors correspond one to one.
  lemma AdaptersMatchDescriptors(m: Manifest, wheel: Wheel)
    requires Linked(m, wheel)
    ensures forall i :: 0 <= i < |m.descriptors| ==> NamesAdapter(m.locks, m.descriptors[i].lockId)
    ensures forall i, j :: 0 <= i < j < |m.descriptors| ==> m.descriptors[i].lockId != m.descriptors[j].lockId
    ensures forall k :: 0 <= k < |m.locks| && m.locks[k].kind == ADAPTER ==>
      exists i :: 0 <= i < |m.descriptors| && m.descriptors[i].lockId == m.locks[k].id
  {
    hide LocksOk, ById, Primaries, Dependents, AllReferencesOk;
    forall i | 0 <= i < |m.descriptors| ensures NamesAdapter(m.locks, m.descriptors[i].lockId) {
      var k := AdapterOf(m, wheel, i);
    }
    forall i, j | 0 <= i < j < |m.descriptors| ensures m.descriptors[i].lockId != m.descriptors[j].lockId {
      var k := AdapterOf(m, wheel, i);
      if m.descriptors[i].lockId == m.descriptors[j].lockId {
        PrimaryUnique(m.descriptors, i, j);
      }
    }
    forall k | 0 <= k < |m.locks| && m.locks[k].kind == ADAPTER
      ensures exists i :: 0 <= i < |m.descriptors| && m.descriptors[i].lockId == m.locks[k].id
    {
      var id := m.locks[k].id;
      ReferencedByOne(m.descriptors, id);
      assert CountsOk(m.locks[k], Primaries(m.descriptors, id), Dependents(m.descriptors, id));
    }
  }

  // Every owner dependency has exactly one owner, and comes from its owner's repository.
  lemma OneOwner(m: Manifest, wheel: Wheel, k: nat) returns (i: nat)
    requires Linked(m, wheel) && k < |m.locks| && m.locks[k].kind == OWNER_DEPENDENCY
    ensures i < |m.descriptors| && m.locks[k].id in m.descriptors[i].dependencies
    ensures forall j :: 0 <= j < |m.descriptors| && m.locks[k].id in m.descriptors[j].dependencies ==> j == i
    ensures m.descriptors[i].lockId in ById(m.locks)
         && ById(m.locks)[m.descriptors[i].lockId].sourceRepository == m.locks[k].sourceRepository
  {
    hide LockOk, ById, Primaries, Dependents;
    var ds, byId, id := m.descriptors, ById(m.locks), m.locks[k].id;
    ByIdExact(m.locks);
    assert CountsOk(m.locks[k], Primaries(ds, id), Dependents(ds, id));
    ReferencedByOne(ds, id);
    i :| 0 <= i < |ds| && id in ds[i].dependencies;
    forall j | 0 <= j < |ds| && id in ds[j].dependencies ensures j == i {
      if j < i {
        DependentUnique(ds, j, i, id);
      } else if i < j {
        DependentUnique(ds, i, j, id);
      }
    }
    assert ReferencesOk(ds[i], byId);
    var n :| 0 <= n < |ds[i].dependencies| && ds[i].dependencies[n] == id;
    assert DependencyOk(id, byId[ds[i].lockId], byId);
  }

  // Every shared dependency is one of the two distributions, comes from the canonical repository, and is used.
  lemma SharedAreCanonical(m: Manifest, wheel: Wheel, k: nat) returns (i: nat)
    requires Linked(m, wheel) && k < |m.locks| && m.locks[k].kind == "shared-dependency"
    ensures m.locks[k].sourceRepository == "https://github.com/bayleafwalker/vuoro"
    ensures m.locks[k].distribution == "vuoro-schema-runtime" || m.locks[k].distribution == "vuoro-adapter-kit"
    ensures i < |m.descriptors| && m.locks[k].id in m.descriptors[i].dependencies
  {
    hide LockOk, ById, Primaries, Dependents;
    var ds, byId, id := m.descriptors, ById(m.locks), m.locks[k].id;
    ByIdExact(m.locks);
    assert CountsOk(m.locks[k], Primaries(ds, id), Dependents(ds, id));
    ReferencedByOne(ds, id);
    i :| 0 <= i < |ds| && id in ds[i].dependencies;
    assert ReferencesOk(ds[i], byId);
    var n :| 0 <= n < |ds[i].dependencies| && ds[i].dependencies[n] == id;
    assert DependencyOk(id, byId[ds[i].lockId], byId);
  }

  lemma LowerHex(c: char)
    requires '0' <= c <= '9' || 'a' <= c <= 'f'
    ensures c in "0123456789abcdef"
  {
    var digits := "0123456789abcdef";
    var i := if c <= '9' then c as int - '0' as int else c as int - 'a' as int + 10;
    assert digits[i] == c;
  }

  /******* The rules without counting *******/

  predicate LowerHexText(s: string, n: nat) { |s| == n && forall i :: 0 <= i < n ==> s[i] in "0123456789abcdef" }

  // One release lock.
  predicate LockFits(l: Lock, wheel: Wheel) {
    && l.id != "" && l.sourceRepository != "" && l.artifactUrl != "" && l.distribution != "" && l.version != ""
    && (l.kind == "adapter" || l.kind == "owner-dependency" || l.kind == "shared-dependency")
    && LowerHexText(l.sourceRevision, 40) && LowerHexText(l.artifactSha256, 64)
    && wheel(l.sourceRepository, l.artifactUrl).Yes?
  }

  // No identifier and no distribution is used twice, and one file name stands for one digest.
  predicate LocksFit(locks: seq<Lock>, wheel: Wheel) {
    && (forall i :: 0 <= i < |locks| ==> LockFits(locks[i], wheel))
    && (forall i, j :: 0 <= i < j < |locks| ==>
          && locks[i].id != locks[j].id && locks[i].distribution != locks[j].distribution
          && (wheel(locks[i].sourceRepository, locks[i].artifactUrl) == wheel(locks[j].sourceRepository, locks[j].artifactUrl) ==>
                locks[i].artifactSha256 == locks[j].artifactSha256))
  }

  // A lock that a descriptor with this adapter may depend on.
  predicate MayDepend(adapter: Lock, l: Lock) {
    || (l.kind == "owner-dependency" && l.sourceRepository == adapter.sourceRepository)
    || (&& l.kind == "shared-dependency" && l.sourceRepository == "https://github.com/bayleafwalker/vuoro"
        && (l.distribution == "vuoro-schema-runtime" || l.distribution == "vuoro-adapter-kit"))
  }

  ghost predicate DependencyFits(locks: seq<Lock>, adapter: Lock, id: string) {
    exists l :: l in locks && l.id == id && MayDepend(adapter, l)
  }

  ghost predicate DescriptorFits(d: Descriptor, locks: seq<Lock>) {
    && Distinct(d.dependencies)
    && exists a :: a in locks && a.id == d.lockId && a.kind == "adapter" &&
         forall id :: id in d.dependencies ==> DependencyFits(locks, a, id)
  }

  // Each adapter has one descriptor, each owner dependency one dependent, and each shared dependency at least one.
  ghost predicate Used(l: Lock, ds: seq<Descriptor>) {
    && (l.kind == "adapter" ==> exists i :: 0 <= i < |ds| && Only(ds, i, l.id))
    && (l.kind == "owner-dependency" ==> exists i :: 0 <= i < |ds| && OnlyDependent(ds, i, l.id))
    && (l.kind == "shared-dependency" ==> exists i :: 0 <= i < |ds| && l.id in ds[i].dependencies)
  }

  ghost predicate Only(ds: seq<Descriptor>, i: nat, id: string) {
    i < |ds| && ds[i].lockId == id && forall j :: 0 <= j < |ds| && ds[j].lockId == id ==> j == i
  }

  ghost predicate OnlyDependent(ds: seq<Descriptor>, i: nat, id: string) {
    i < |ds| && id in ds[i].dependencies && forall j :: 0 <= j < |ds| && id in ds[j].dependencies ==> j == i
  }

  lemma LockMeans(l: Lock, wheel: Wheel)
    ensures LockOk(l, wheel) <==> LockFits(l, wheel)
  {
    HexMeans(l.sourceRevision, 40);
    HexMeans(l.artifactSha256, 64);
    hide HexText, LowerHexText;
    assert l.kind == "adapter" || l.kind == "owner-dependency" || l.kind == "shared-dependency" ==> l.kind != "" by {
      assert |"adapter"| == 7 && |"owner-dependency"| == 16 && |"shared-dependency"| == 17;
    }
    HexFilled(l.sourceRevision, 40);
    HexFilled(l.artifactSha256, 64);
  }

  lemma HexMeans(s: string, n: nat)
    ensures HexText(s, n) <==> LowerHexText(s, n)
  {
    forall c: char ensures '0' <= c <= '9' || 'a' <= c <= 'f' <==> c in "0123456789abcdef" {
      if '0' <= c <= '9' || 'a' <= c <= 'f' {
        LowerHex(c);
      }
    }
  }

  lemma HexFilled(s: string, n: nat)
    ensures n > 0 && LowerHexText(s, n) ==> s != ""
  {
  }

  lemma LocksMean(locks: seq<Lock>, wheel: Wheel)
    ensures LocksOk(locks, wheel) <==> LocksFit(locks, wheel)
  {
    hide LockOk, LockFits;
    forall i | 0 <= i < |locks| ensures LockOk(locks[i], wheel) <==> LockFits(locks[i], wheel) {
      LockMeans(locks[i], wheel);
    }
    forall i, j | 0 <= i < j < |locks|
      ensures Compatible(locks[i], locks[j], wheel) <==>
        && locks[i].id != locks[j].id && locks[i].distribution != locks[j].distribution
        && (wheel(locks[i].sourceRepository, locks[i].artifactUrl) == wheel(locks[j].sourceRepository, locks[j].artifactUrl) ==>
              locks[i].artifactSha256 == locks[j].artifactSha256)
    {
    }
    hide Compatible, WheelOf;
  }

  lemma {:induction false} PrimaryTwice(ds: seq<Descriptor>, id: string)
    requires Primaries(ds, id) >= 2
    ensures exists i, j :: 0 <= i < j < |ds| && ds[i].lockId == id && ds[j].lockId == id
  {
    var n := |ds| - 1;
    var front := ds[..n];
    if Primaries(front, id) >= 2 {
      PrimaryTwice(front, id);
      var i, j :| 0 <= i < j < |front| && front[i].lockId == id && front[j].lockId == id;
      assert ds[i].lockId == id && ds[j].lockId == id;
    } else {
      ReferencedByOne(front, id);
      var i :| 0 <= i < |front| && front[i].lockId == id;
      assert ds[i].lockId == id && ds[n].lockId == id;
    }
  }

  lemma {:induction false} DependentTwice(ds: seq<Descriptor>, id: string)
    requires Dependents(ds, id) >= 2
    ensures exists i, j :: 0 <= i < j < |ds| && id in ds[i].dependencies && id in ds[j].dependencies
  {
    var n := |ds| - 1;
    var front := ds[..n];
    if Dependents(front, id) >= 2 {
      DependentTwice(front, id);
      var i, j :| 0 <= i < j < |front| && id in front[i].dependencies && id in front[j].dependencies;
      assert id in ds[i].dependencies && id in ds[j].dependencies;
    } else {
      ReferencedByOne(front, id);
      var i :| 0 <= i < |front| && id in front[i].dependencies;
      assert id in ds[i].dependencies && id in ds[n].dependencies;
    }
  }

  lemma CountOfOne(ds: seq<Descriptor>, id: string)
    ensures Primaries(ds, id) == 1 <==> exists i :: 0 <= i < |ds| && Only(ds, i, id)
    ensures Dependents(ds, id) == 1 <==> exists i :: 0 <= i < |ds| && OnlyDependent(ds, i, id)
  {
    hide Primaries, Dependents;
    ReferencedByOne(ds, id);
    if Primaries(ds, id) >= 2 {
      PrimaryTwice(ds, id);
    } else if i :| 0 <= i < |ds| && ds[i].lockId == id {
      forall j | 0 <= j < |ds| && ds[j].lockId == id ensures j == i {
        if i < j { PrimaryUnique(ds, i, j); } else if j < i { PrimaryUnique(ds, j, i); }
      }
      assert Primaries(ds, id) == 1 ==> Only(ds, i, id);
    }
    if Dependents(ds, id) >= 2 {
      DependentTwice(ds, id);
    } else if i :| 0 <= i < |ds| && id in ds[i].dependencies {
      forall j | 0 <= j < |ds| && id in ds[j].dependencies ensures j == i {
        if i < j { DependentUnique(ds, i, j, id); } else if j < i { DependentUnique(ds, j, i, id); }
      }
      assert Dependents(ds, id) == 1 ==> OnlyDependent(ds, i, id);
    }
  }

  // The lock with an identifier.
  lemma HeldIs(locks: seq<Lock>, id: string, l: Lock)
    requires forall i, j :: 0 <= i < j < |locks| ==> locks[i].id != locks[j].id
    ensures id in ById(locks) && ById(locks)[id] == l <==> l in locks && l.id == id
  {
    ByIdExact(locks);
    hide ById;
    if l in locks && l.id == id {
      var i :| 0 <= i < |locks| && locks[i] == l;
    }
  }

  lemma DependencyMeans(locks: seq<Lock>, adapter: Lock, id: string, wheel: Wheel)
    requires LocksOk(locks, wheel)
    ensures DependencyOk(id, adapter, ById(locks)) <==> DependencyFits(locks, adapter, id)
  {
    hide ById, LockOk;
    if id in ById(locks) {
      var l := ById(locks)[id];
      HeldIs(locks, id, l);
      var i :| 0 <= i < |locks| && locks[i] == l;
      assert LockOk(locks[i], wheel);
      KnownKind(l, wheel);
      assert |"adapter"| == 7 && |"owner-dependency"| == 16 && |"shared-dependency"| == 17;
    }
    if l :| l in locks && l.id == id && MayDepend(adapter, l) {
      HeldIs(locks, id, l);
      assert |"adapter"| == 7 && |"owner-dependency"| == 16 && |"shared-dependency"| == 17;
    }
  }

  lemma ReferencesMean(d: Descriptor, locks: seq<Lock>, wheel: Wheel)
    requires LocksOk(locks, wheel)
    ensures ReferencesOk(d, ById(locks)) <==> DescriptorFits(d, locks)
  {
    hide ById, LocksOk, DependencyOk, DependencyFits;
    forall adapter, id ensures DependencyOk(id, adapter, ById(locks)) <==> DependencyFits(locks, adapter, id) {
      DependencyMeans(locks, adapter, id, wheel);
    }
    LocksDistinct(locks, wheel);
    if ReferencesOk(d, ById(locks)) {
      var a := ById(locks)[d.lockId];
      HeldIs(locks, d.lockId, a);
      forall id | id in d.dependencies ensures DependencyFits(locks, a, id) {
        var i :| 0 <= i < |d.dependencies| && d.dependencies[i] == id;
      }
    }
    if DescriptorFits(d, locks) {
      var a :| a in locks && a.id == d.lockId && a.kind == "adapter" && forall id :: id in d.dependencies ==> DependencyFits(locks, a, id);
      HeldIs(locks, d.lockId, a);
      NotItself(d, locks, a);
    }
  }

  lemma LocksDistinct(locks: seq<Lock>, wheel: Wheel)
    requires LocksOk(locks, wheel)
    ensures forall i, j :: 0 <= i < j < |locks| ==> locks[i].id != locks[j].id
  {
    hide LockOk;
    forall i, j | 0 <= i < j < |locks| ensures locks[i].id != locks[j].id {
      assert Compatible(locks[i], locks[j], wheel);
    }
  }

  // An adapter is no dependency.
  lemma NotItself(d: Descriptor, locks: seq<Lock>, a: Lock)
    requires a in locks && a.id == d.lockId && a.kind == "adapter"
    requires forall i, j :: 0 <= i < j < |locks| ==> locks[i].id != locks[j].id
    requires forall id :: id in d.dependencies ==> DependencyFits(locks, a, id)
    ensures d.lockId !in d.dependencies
  {
    assert |"adapter"| == 7 && |"owner-dependency"| == 16 && |"shared-dependency"| == 17;
    forall l | l in locks && l.id == d.lockId ensures !MayDepend(a, l) {
      HeldIs(locks, d.lockId, l);
      HeldIs(locks, d.lockId, a);
    }
  }

  ghost predicate AllUsed(locks: seq<Lock>, ds: seq<Descriptor>) { forall i :: 0 <= i < |locks| ==> Used(locks[i], ds) }

  ghost predicate AllFit(locks: seq<Lock>, ds: seq<Descriptor>) { forall i :: 0 <= i < |ds| ==> DescriptorFits(ds[i], locks) }

  lemma UseMeans(l: Lock, ds: seq<Descriptor>, locks: seq<Lock>, wheel: Wheel)
    requires LocksOk(locks, wheel) && AllReferencesOk(ds, ById(locks)) && l in locks
    ensures CountsOk(l, Primaries(ds, l.id), Dependents(ds, l.id)) <==> Used(l, ds)
  {
    hide ById, LocksOk, Primaries, Dependents, DependencyOk;
    CountOfOne(ds, l.id);
    ReferencedByOne(ds, l.id);
    assert |"adapter"| == 7 && |"owner-dependency"| == 16 && |"shared-dependency"| == 17;
    LocksDistinct(locks, wheel);
    HeldIs(locks, l.id, l);
    if l.kind == ADAPTER && Dependents(ds, l.id) > 0 {
      var i :| 0 <= i < |ds| && l.id in ds[i].dependencies;
      assert ReferencesOk(ds[i], ById(locks));
      var j :| 0 <= j < |ds[i].dependencies| && ds[i].dependencies[j] == l.id;
      assert DependencyOk(ds[i].dependencies[j], ById(locks)[ds[i].lockId], ById(locks));
      NoAdapter(l.id, ById(locks)[ds[i].lockId], ById(locks));
    }
  }

  lemma NoAdapter(id: string, primary: Lock, byId: map<string, Lock>)
    requires DependencyOk(id, primary, byId)
    ensures byId[id].kind != ADAPTER
  {
  }

  // Counting references is the same as this: every descriptor names an adapter of its own and dependencies that it may
  // have, and every lock is used as its kind demands.
  lemma LinkedExact(m: Manifest, wheel: Wheel)
    ensures Linked(m, wheel) <==> LocksFit(m.locks, wheel) && AllFit(m.locks, m.descriptors) && AllUsed(m.locks, m.descriptors)
  {
    hide ById, LocksOk, LocksFit, Primaries, Dependents, ReferencesOk, DescriptorFits, CountsOk, Used;
    LocksMean(m.locks, wheel);
    if LocksOk(m.locks, wheel) {
      forall i | 0 <= i < |m.descriptors|
        ensures ReferencesOk(m.descriptors[i], ById(m.locks)) <==> DescriptorFits(m.descriptors[i], m.locks)
      {
        ReferencesMean(m.descriptors[i], m.locks, wheel);
      }
      if AllReferencesOk(m.descriptors, ById(m.locks)) {
        forall l | l in m.locks ensures CountsOk(l, Primaries(m.descriptors, l.id), Dependents(m.descriptors, l.id)) <==> Used(l, m.descriptors) {
          UseMeans(l, m.descriptors, m.locks, wheel);
        }
      }
    }
  }

  // What the fetcher accepts.
  lemma FetchExact(m: Manifest, wheel: Wheel)
    ensures FetchAccepts(m, wheel) <==>
      && m.otherKeys == {} && m.schemaVersion == "vuoro-composition/v3"
      && (forall i, j :: 0 <= i < j < |m.descriptors| ==> m.descriptors[i].domain != m.descriptors[j].domain)
      && (set d | d in m.descriptors :: d.domain) == {"work", "audit", "knowledge"}
      && (forall d :: d in m.descriptors ==>
            && d.domain != "" && d.lockId != "" && d.adapterModule != "" && d.register != "" && d.apiVersion != ""
            && d.schemaVersion != "" && "" !in d.dependencies)
      && LocksFit(m.locks, wheel) && AllFit(m.locks, m.descriptors) && AllUsed(m.locks, m.descriptors)
  {
    hide Linked, LocksFit, AllFit, AllUsed;
    LinkedExact(m, wheel);
    var ds, names := m.descriptors, Domains(m.descriptors);
    assert NameSet(names) == set d | d in ds :: d.domain by {
      forall d | d in ds ensures d.domain in names {
        var i :| 0 <= i < |ds| && ds[i] == d;
        assert names[i] == d.domain;
      }
    }
    if Distinct(names) {
      forall i, j | 0 <= i < j < |ds| ensures ds[i].domain != ds[j].domain {
        assert names[i] != names[j];
      }
    }
    forall d ensures DescriptorFilled(d) <==>
      && d.domain != "" && d.lockId != "" && d.adapterModule != "" && d.register != "" && d.apiVersion != ""
      && d.schemaVersion != "" && "" !in d.dependencies
    {
    }
    hide DescriptorFilled, Distinct;
    assert AllFilled(ds) <==> forall d :: d in ds ==> DescriptorFilled(d);
  }

  /******* A manifest with a shared dependency *******/

  function SampleLock(id: string, kind: string, repository: string, distribution: string): Lock {
    Lock(id, kind, repository, seq(40, _ => 'a'), distribution, seq(64, _ => 'b'), distribution, "1")
  }

  function SampleDescriptor(domain: string, lockId: string): Descriptor {
    Descriptor(domain, lockId, ["kit"], "module", "register", "1", "1")
  }

  const SAMPLE := Manifest({}, "vuoro-composition/v3",
    [SampleLock("w", "adapter", "owner/w", "work-adapter"), SampleLock("a", "adapter", "owner/a", "audit-adapter"),
     SampleLock("k", "adapter", "owner/k", "knowledge-adapter"),
     SampleLock("kit", "shared-dependency", "https://github.com/bayleafwalker/vuoro", "vuoro-adapter-kit")],
    [SampleDescriptor("work", "w"), SampleDescriptor("audit", "a"), SampleDescriptor("knowledge", "k")])

  function SampleWheel(): Wheel { (repository, url) => Yes(url) }

  lemma SampleCounts(id: string)
    ensures Primaries(SAMPLE.descriptors, id) == if id == "w" || id == "a" || id == "k" then 1 else 0
    ensures Dependents(SAMPLE.descriptors, id) == if id == "kit" then 3 else 0
  {
    var ds := SAMPLE.descriptors;
    CountOneMore(ds[..2], ds[2]);
    CountOneMore(ds[..1], ds[1]);
    CountOneMore([], ds[0]);
    assert ds == ds[..2] + [ds[2]] && ds[..2] == ds[..1] + [ds[1]] && ds[..1] == [] + [ds[0]];
    hide Primaries, Dependents;
  }

  lemma SampleIsOk(id: string, kind: string, repository: string, distribution: string)
    requires id != "" && repository != "" && distribution != "" && (kind == ADAPTER || kind == SHARED_DEPENDENCY)
    ensures LockOk(SampleLock(id, kind, repository, distribution), SampleWheel())
  {
  }

  lemma SampleLocksOk()
    ensures LocksOk(SAMPLE.locks, SampleWheel())
  {
    var ls := SAMPLE.locks;
    forall i | 0 <= i < |ls| ensures LockOk(ls[i], SampleWheel()) {
      var l := ls[i];
      SampleIsOk(l.id, l.kind, l.sourceRepository, l.distribution);
    }
    hide LockOk, Compatible;
    SampleDiffer();
  }

  // Distributions tell the locks apart, and so do identifiers.
  lemma SampleDiffer()
    ensures forall i, j :: 0 <= i < j < 4 ==> Compatible(SAMPLE.locks[i], SAMPLE.locks[j], SampleWheel())
  {
    var ls := SAMPLE.locks;
    assert ls[0].distribution[0] == 'w' && ls[1].distribution[0] == 'a' && ls[2].distribution[0] == 'k' && ls[3].distribution[0] == 'v';
    assert ls[0].id[0] == 'w' && ls[1].id[0] == 'a' && ls[2].id[0] == 'k' && |ls[2].id| == 1 && |ls[3].id| == 3;
  }

  lemma RefersToKit(d: Descriptor, byId: map<string, Lock>)
    requires d.dependencies == ["kit"] && |d.lockId| == 1 && d.lockId in byId && byId[d.lockId].kind == "adapter"
    requires "kit" in byId && byId["kit"].kind == "shared-dependency" && byId["kit"].distribution == "vuoro-adapter-kit"
    requires byId["kit"].sourceRepository == "https://github.com/bayleafwalker/vuoro"
    ensures ReferencesOk(d, byId)
  {
    assert |"kit"| == 3 && |"adapter"| == 7 && |"shared-dependency"| == 17 && |"owner-dependency"| == 16;
  }

  lemma SampleReferences(i: nat)
    requires i < 3
    ensures ReferencesOk(SAMPLE.descriptors[i], ById(SAMPLE.locks))
  {
    var ls := SAMPLE.locks;
    SampleLocksOk();
    ByIdExact(ls);
    hide ById, LocksOk, ReferencesOk;
    var byId := ById(ls);
    assert byId[ls[i].id] == ls[i] && byId[ls[3].id] == ls[3];
    RefersToKit(SAMPLE.descriptors[i], byId);
  }

  lemma SampleCountsOk(i: nat)
    requires i < 4
    ensures var id := SAMPLE.locks[i].id; CountsOk(SAMPLE.locks[i], Primaries(SAMPLE.descriptors, id), Dependents(SAMPLE.descriptors, id))
  {
    SampleCounts(SAMPLE.locks[i].id);
    hide Primaries, Dependents;
    assert |"kit"| == 3 && |"adapter"| == 7 && |"shared-dependency"| == 17 && |"owner-dependency"| == 16;
  }

  // Both validators accept it.
  lemma SharedHappens()
    ensures FetchAccepts(SAMPLE, SampleWheel()) && AttestAccepts(SAMPLE, SampleWheel(), {"work", "audit", "knowledge"})
    ensures SAMPLE.locks[3].kind == "shared-dependency"
  {
    var ls, ds := SAMPLE.locks, SAMPLE.descriptors;
    SampleLocksOk();
    SampleDomains();
    forall i | 0 <= i < |ds| ensures ReferencesOk(ds[i], ById(ls)) {
      SampleReferences(i);
    }
    forall i | 0 <= i < |ls| ensures CountsOk(ls[i], Primaries(ds, ls[i].id), Dependents(ds, ls[i].id)) {
      SampleCountsOk(i);
    }
    SampleFilled();
    hide ById, Primaries, Dependents, LocksOk, ReferencesOk, CountsOk, DescriptorFilled, NameSet, Domains;
    FetchIsStricter(SAMPLE, SampleWheel());
  }

  lemma SampleFilled()
    ensures AllFilled(SAMPLE.descriptors)
  {
  }

  lemma SampleDomains()
    ensures Distinct(Domains(SAMPLE.descriptors)) && NameSet(Domains(SAMPLE.descriptors)) == {"work", "audit", "knowledge"}
  {
    var names := Domains(SAMPLE.descriptors);
    assert names == ["work", "audit", "knowledge"];
    assert names[0][0] == 'w' && names[1][0] == 'a' && names[2][0] == 'k';
    assert NameSet(names) == {"work", "audit", "knowledge"};
  }
}
