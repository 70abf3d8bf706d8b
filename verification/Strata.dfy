/**
 Strata and transitions of a comparison: splitting a cohort by a label conserves every count, and strata
 that all pass the gate cannot hide a cohort that does not.
 */
module Strata {
  import opened Basics
  import opened Comparison

  /******* Sums over labels *******/

  function SumOver<L>(labels: seq<L>, f: L -> nat): nat {
    if labels == [] then 0 else f(labels[0]) + SumOver(labels[1..], f)
  }

  lemma {:induction false} SumSame<L>(labels: seq<L>, f: L -> nat, g: L -> nat)
    requires forall l :: l in labels ==> f(l) == g(l)
    ensures SumOver(labels, f) == SumOver(labels, g)
  {
    if labels != [] {
      assert labels == [labels[0]] + labels[1..];
      SumSame(labels[1..], f, g);
    }
  }

  // Two summands that differ at one label only.
  lemma {:induction false} SumShift<L>(labels: seq<L>, f: L -> nat, g: L -> nat, at: L, d: nat)
    requires Distinct(labels) && at in labels && f(at) == g(at) + d
    requires forall l :: l in labels && l != at ==> f(l) == g(l)
    ensures SumOver(labels, f) == SumOver(labels, g) + d
  {
    assert labels == [labels[0]] + labels[1..];
    if labels[0] == at {
      forall l | l in labels[1..] ensures f(l) == g(l) {
        var i :| 0 <= i < |labels[1..]| && labels[1..][i] == l;
        assert labels[0] != labels[i + 1];
      }
      SumSame(labels[1..], f, g);
    } else {
      SumShift(labels[1..], f, g, at, d);
    }
  }

  function Labelled<L(==)>(key: Case -> L, l: L): Case -> bool { c => key(c) == l }

  function CountIn<L(==)>(cases: seq<Case>, key: Case -> L, p: Case -> bool): L -> nat {
    l => Count(Where(cases, Labelled(key, l)), p)
  }

  // Every count is the sum of the counts of the strata.
  lemma {:induction false} Conserved<L>(cases: seq<Case>, key: Case -> L, labels: seq<L>, p: Case -> bool)
    requires Distinct(labels) && forall c :: c in cases ==> key(c) in labels
    ensures SumOver(labels, CountIn(cases, key, p)) == Count(cases, p)
  {
    if cases == [] {
      NothingToSum(labels, CountIn(cases, key, p));
    } else {
      var c, rest := cases[0], cases[1..];
      assert cases == [c] + rest;
      Conserved(rest, key, labels, p);
      var f, g, d := CountIn(cases, key, p), CountIn(rest, key, p), if p(c) then 1 else 0;
      forall l | l in labels ensures f(l) == g(l) + if l == key(c) then d else 0 {
        var w := Where(rest, Labelled(key, l));
        if l == key(c) {
          assert Where(cases, Labelled(key, l)) == [c] + w && ([c] + w)[1..] == w;
        } else {
          assert Where(cases, Labelled(key, l)) == w;
        }
      }
      SumShift(labels, f, g, key(c), d);
    }
  }

  lemma {:induction false} NothingToSum<L>(labels: seq<L>, f: L -> nat)
    requires forall l :: l in labels ==> f(l) == 0
    ensures SumOver(labels, f) == 0
  {
    if labels != [] {
      assert labels == [labels[0]] + labels[1..];
      NothingToSum(labels[1..], f);
    }
  }

  function Every(): Case -> bool { c => true }

  lemma {:induction false} CountEvery(cases: seq<Case>)
    ensures Count(cases, Every()) == |cases|
  {
    if cases != [] {
      CountEvery(cases[1..]);
    }
  }

  /******* Grouping *******/

  function Stratum(k: Cohort, key: Case -> string, l: string): Cohort {
    Cohort(Where(k.cases, Labelled(key, l)), k.arms)
  }

  // The cases of each label, in the order of the cohort.
  method GroupBy(cases: seq<Case>, key: Case -> string) returns (groups: map<string, seq<Case>>)
    ensures forall l :: l in groups <==> Where(cases, Labelled(key, l)) != []
    ensures forall l :: l in groups ==> groups[l] == Where(cases, Labelled(key, l))
  {
    groups := map[];
    var i := 0;
    while i < |cases|
      invariant 0 <= i <= |cases|
      invariant forall l :: l in groups <==> Where(cases[..i], Labelled(key, l)) != []
      invariant forall l :: l in groups ==> groups[l] == Where(cases[..i], Labelled(key, l))
    {
      var c := cases[i];
      assert cases[..i + 1] == cases[..i] + [c];
      forall l ensures Where(cases[..i + 1], Labelled(key, l)) ==
        Where(cases[..i], Labelled(key, l)) + if key(c) == l then [c] else []
      {
        WhereConcat(cases[..i], [c], Labelled(key, l));
        WhereOne(c, Labelled(key, l));
      }
      if key(c) !in groups {
        groups := groups[key(c) := []];
      }
      groups := groups[key(c) := groups[key(c)] + [c]];
      i := i + 1;
    }
    assert cases[..i] == cases;
  }

  lemma WhereOne(c: Case, p: Case -> bool)
    ensures Where([c], p) == if p(c) then [c] else []
  {
    assert [c][1..] == [];
  }

  datatype Metrics = Metrics(
    cases: nat, observedPairs: nat, qualifiedPairs: nat, reasons: seq<Reason>,
    acceptance: Rate, rejection: Rate, capture: Rate)

  function MetricsOf(k: Cohort, minCases: nat, minCoverage: real): Metrics
    requires minCases > 0
  {
    Metrics(|k.cases|, Count(k.cases, ObservedPair(k.arms)), Count(k.cases, QualifiedPair(k.arms)),
            Gate(k, minCases, minCoverage), RateOf(AcceptanceRate, k, minCases, minCoverage),
            RateOf(RejectionRate, k, minCases, minCoverage), RateOf(CaptureRate, k, minCases, minCoverage))
  }

  // The strata of one axis: labels that cover the cohort, each with the figures of its own cases.
  method Stratify(k: Cohort, key: Case -> string, minCases: nat, minCoverage: real)
    returns (labels: seq<string>, strata: map<string, Metrics>)
    requires minCases > 0
    ensures Partition(k, key, labels)
    ensures forall l :: l in labels <==> Stratum(k, key, l).cases != []
    ensures forall l :: l in strata <==> l in labels
    ensures forall l :: l in labels ==> strata[l] == MetricsOf(Stratum(k, key, l), minCases, minCoverage)
  {
    hide MetricsOf, Where;
    var groups := GroupBy(k.cases, key);
    labels := Listed(groups.Keys);
    strata := map l | l in groups :: MetricsOf(Cohort(groups[l], k.arms), minCases, minCoverage);
    forall c | c in k.cases ensures key(c) in labels {
      OwnStratum(k.cases, key, c);
    }
  }

  lemma {:induction false} OwnStratum(cases: seq<Case>, key: Case -> string, c: Case)
    requires c in cases
    ensures Where(cases, Labelled(key, key(c))) != []
  {
    assert cases == [cases[0]] + cases[1..];
    if c != cases[0] {
      OwnStratum(cases[1..], key, c);
    }
  }

  // Labels that every case of a cohort falls under.
  ghost predicate Partition(k: Cohort, key: Case -> string, labels: seq<string>) {
    Distinct(labels) && forall c :: c in k.cases ==> key(c) in labels
  }

  function CasesIn(k: Cohort, key: Case -> string): string -> nat { l => |Stratum(k, key, l).cases| }

  function TallyIn(m: Metric, k: Cohort, key: Case -> string, side: Side, open: bool): string -> nat {
    l => var t := TallyOf(m, Stratum(k, key, l), side); if open then t.unresolved else t.count
  }

  // On every axis the denominators, hits and unresolved cases of the strata add up to the cohort's.
  lemma StrataConserve(m: Metric, k: Cohort, key: Case -> string, labels: seq<string>, side: Side)
    requires Partition(k, key, labels)
    ensures SumOver(labels, CasesIn(k, key)) == |k.cases|
    ensures SumOver(labels, TallyIn(m, k, key, side, false)) == TallyOf(m, k, side).count
    ensures SumOver(labels, TallyIn(m, k, key, side, true)) == TallyOf(m, k, side).unresolved
  {
    hide IsHit, IsUnresolved;
    CasesConserved(k, key, labels);
    var hit, open := IsHit(m, k.arms, side), IsUnresolved(m, k.arms, side);
    Conserved(k.cases, key, labels, hit);
    SumSame(labels, TallyIn(m, k, key, side, false), CountIn(k.cases, key, hit));
    Conserved(k.cases, key, labels, open);
    SumSame(labels, TallyIn(m, k, key, side, true), CountIn(k.cases, key, open));
  }

  // So do the pairs of a metric and the cases that move from one state to another.
  lemma PairsAndTransitionsConserve(m: Metric, k: Cohort, key: Case -> string, labels: seq<string>, from: State, to: State)
    requires Partition(k, key, labels)
    ensures SumOver(labels, CountIn(k.cases, key, Pair(m, k.arms))) == Count(k.cases, Pair(m, k.arms))
    ensures SumOver(labels, CountIn(k.cases, key, Moves(k.arms, from, to))) == Count(k.cases, Moves(k.arms, from, to))
  {
    Conserved(k.cases, key, labels, Pair(m, k.arms));
    Conserved(k.cases, key, labels, Moves(k.arms, from, to));
  }

  lemma CasesConserved(k: Cohort, key: Case -> string, labels: seq<string>)
    requires Partition(k, key, labels)
    ensures SumOver(labels, CasesIn(k, key)) == |k.cases|
  {
    Conserved(k.cases, key, labels, Every());
    CountEvery(k.cases);
    forall l | l in labels ensures CasesIn(k, key)(l) == CountIn(k.cases, key, Every())(l) {
      CountEvery(Where(k.cases, Labelled(key, l)));
    }
    SumSame(labels, CasesIn(k, key), CountIn(k.cases, key, Every()));
  }

  /******* The gate of the whole *******/

  // Coverage without division.
  predicate Covered(a: nat, n: nat, minCoverage: real) { a as real >= minCoverage * n as real }

  lemma CoverageExact(a: nat, n: nat, minCoverage: real)
    ensures CoverageShort(a, n, minCoverage) <==> n == 0 || !Covered(a, n, minCoverage)
  {
    ShortMeans(a, n, minCoverage);
  }

  predicate Passes(n: nat, o: nat, q: nat, minCases: nat, minCoverage: real) {
    && n >= minCases && o >= minCases && q >= minCases && n > 0
    && Covered(o, n, minCoverage) && Covered(q, n, minCoverage)
  }

  lemma GateExact(k: Cohort, minCases: nat, minCoverage: real)
    ensures Gate(k, minCases, minCoverage) == [] <==>
      Passes(|k.cases|, Count(k.cases, ObservedPair(k.arms)), Count(k.cases, QualifiedPair(k.arms)), minCases, minCoverage)
  {
    hide ObservedPair, QualifiedPair, CoverageShort, Covered, Count;
    var n, o, q := |k.cases|, Count(k.cases, ObservedPair(k.arms)), Count(k.cases, QualifiedPair(k.arms));
    CoverageExact(o, n, minCoverage);
    CoverageExact(q, n, minCoverage);
    var a, b, c := When(n < minCases, CasesBelowMinimum), When(o < minCases, PairsBelowMinimum),
                   When(CoverageShort(o, n, minCoverage), CoverageBelowMinimum);
    var d, e := When(q < minCases, QualifiedPairsBelowMinimum),
                When(CoverageShort(q, n, minCoverage), QualificationCoverageBelowMinimum);
    assert |Gate(k, minCases, minCoverage)| == |a| + |b| + |c| + |d| + |e|;
  }

  lemma {:induction false} SumCovers<L>(labels: seq<L>, f: L -> nat, g: L -> nat, minCoverage: real)
    requires forall l :: l in labels ==> Covered(f(l), g(l), minCoverage)
    ensures Covered(SumOver(labels, f), SumOver(labels, g), minCoverage)
  {
    if labels != [] {
      assert labels == [labels[0]] + labels[1..];
      SumCovers(labels[1..], f, g, minCoverage);
      var a, b := g(labels[0]), SumOver(labels[1..], g);
      assert minCoverage * (a + b) as real == minCoverage * a as real + minCoverage * b as real;
    }
  }

  lemma FirstBelowSum<L>(labels: seq<L>, f: L -> nat)
    requires labels != []
    ensures f(labels[0]) <= SumOver(labels, f)
  {
  }

  // If every stratum passes the gate, the whole cohort does.
  lemma StrataCannotHideSuppression(
    k: Cohort, key: Case -> string, labels: seq<string>, minCases: nat, minCoverage: real)
    requires Partition(k, key, labels) && labels != []
    requires forall l :: l in labels ==> Gate(Stratum(k, key, l), minCases, minCoverage) == []
    ensures Gate(k, minCases, minCoverage) == []
  {
    hide ObservedPair, QualifiedPair, Gate, Covered, Count, Where, SumOver, Labelled;
    var o, q := ObservedPair(k.arms), QualifiedPair(k.arms);
    var fo, fq, fn := CountIn(k.cases, key, o), CountIn(k.cases, key, q), CasesIn(k, key);
    forall l | l in labels ensures Passes(fn(l), fo(l), fq(l), minCases, minCoverage) {
      GateExact(Stratum(k, key, l), minCases, minCoverage);
    }
    Conserved(k.cases, key, labels, o);
    Conserved(k.cases, key, labels, q);
    CasesConserved(k, key, labels);
    SumCovers(labels, fo, fn, minCoverage);
    SumCovers(labels, fq, fn, minCoverage);
    assert labels[0] in labels;
    FirstBelowSum(labels, fo);
    FirstBelowSum(labels, fq);
    FirstBelowSum(labels, fn);
    GateExact(k, minCases, minCoverage);
  }

  // The other way round it fails: two small strata of a cohort that is large enough.
  lemma SuppressedStrataOfAComputedWhole()
    ensures exists k: Cohort, key: Case -> string ::
      Gate(k, 2, 1.0) == [] && Gate(Stratum(k, key, "a"), 2, 1.0) != []
  {
    var o := Observation(true, Accepted, Some(true));
    var rows: map<Case, Observation> := map["a" := o, "b" := o];
    var k := Cohort(["a", "b"], Arms(rows, rows));
    var key := (c: Case) => c;
    assert k.cases[1..] == ["b"] && ["b"][1..] == [];
    assert Count(k.cases, ObservedPair(k.arms)) == 2 && Count(k.cases, QualifiedPair(k.arms)) == 2;
    GateExact(k, 2, 1.0);
    assert Where(k.cases, Labelled(key, "a")) == ["a"];
    GateExact(Stratum(k, key, "a"), 2, 1.0);
    assert Gate(k, 2, 1.0) == [] && Gate(Stratum(k, key, "a"), 2, 1.0) != [];
  }

  /******* Transitions *******/

  datatype State = WasAccepted | WasRejected | WasPending | WasUnknown | Unqualified | Missing

  const STATES := [WasAccepted, WasRejected, WasPending, WasUnknown, Unqualified, Missing]

  function StateOf(arms: Arms, side: Side): Case -> State {
    c =>
      match Row(arms, side, c)
      case None => Missing
      case Some(o) =>
        if !o.qualified then Unqualified
        else
          match o.disposition
          case Accepted => WasAccepted
          case Rejected => WasRejected
          case Pending => WasPending
          case Unknown => WasUnknown
  }

  function Moves(arms: Arms, from: State, to: State): Case -> bool {
    c => StateOf(arms, Base)(c) == from && StateOf(arms, Cand)(c) == to
  }

  method Transitions(k: Cohort) returns (counts: map<(State, State), nat>)
    ensures forall a, b :: (a, b) in counts <==> Count(k.cases, Moves(k.arms, a, b)) > 0
    ensures forall a, b :: (a, b) in counts ==> counts[(a, b)] == Count(k.cases, Moves(k.arms, a, b))
  {
    hide StateOf;
    counts := map[];
    var i := 0;
    while i < |k.cases|
      invariant 0 <= i <= |k.cases|
      invariant forall a, b :: (a, b) in counts <==> Count(k.cases[..i], Moves(k.arms, a, b)) > 0
      invariant forall a, b :: (a, b) in counts ==> counts[(a, b)] == Count(k.cases[..i], Moves(k.arms, a, b))
    {
      var c := k.cases[i];
      var from, to := StateOf(k.arms, Base)(c), StateOf(k.arms, Cand)(c);
      assert k.cases[..i + 1] == k.cases[..i] + [c];
      forall a, b ensures Count(k.cases[..i + 1], Moves(k.arms, a, b)) ==
        Count(k.cases[..i], Moves(k.arms, a, b)) + if (a, b) == (from, to) then 1 else 0
      {
        CountConcat(k.cases[..i], [c], Moves(k.arms, a, b));
        CountOne(c, Moves(k.arms, a, b));
      }
      counts := counts[(from, to) := (if (from, to) in counts then counts[(from, to)] else 0) + 1];
      i := i + 1;
    }
    assert k.cases[..i] == k.cases;
  }

  lemma CountOne(c: Case, p: Case -> bool)
    ensures Count([c], p) == if p(c) then 1 else 0
  {
    assert [c][1..] == [];
  }

  function MovesFrom(k: Cohort, from: State): State -> nat { to => Count(k.cases, Moves(k.arms, from, to)) }

  function MovesTo(k: Cohort, to: State): State -> nat { from => Count(k.cases, Moves(k.arms, from, to)) }

  lemma {:induction false} CountWhere(cases: seq<Case>, q: Case -> bool, p: Case -> bool, both: Case -> bool)
    requires forall c :: both(c) == (p(c) && q(c))
    ensures Count(Where(cases, q), p) == Count(cases, both)
  {
    if cases != [] {
      CountWhere(cases[1..], q, p, both);
      var w := Where(cases[1..], q);
      assert ([cases[0]] + w)[1..] == w;
    }
  }

  // The transitions out of a state add up to the baseline's cases in it, those into a state to the candidate's.
  lemma TransitionMarginals(k: Cohort, s: State)
    ensures SumOver(STATES, MovesFrom(k, s)) == Count(k.cases, Labelled(StateOf(k.arms, Base), s))
    ensures SumOver(STATES, MovesTo(k, s)) == Count(k.cases, Labelled(StateOf(k.arms, Cand), s))
  {
    AllStates();
    OutOf(k, s, STATES);
    Into(k, s, STATES);
  }

  lemma OutOf(k: Cohort, s: State, states: seq<State>)
    requires Distinct(states) && forall t: State :: t in states
    ensures SumOver(states, MovesFrom(k, s)) == Count(k.cases, Labelled(StateOf(k.arms, Base), s))
  {
    hide StateOf, SumOver, Count, Where;
    var base, cand := StateOf(k.arms, Base), StateOf(k.arms, Cand);
    Conserved(k.cases, cand, states, Labelled(base, s));
    forall to | to in states ensures MovesFrom(k, s)(to) == CountIn(k.cases, cand, Labelled(base, s))(to) {
      CountWhere(k.cases, Labelled(cand, to), Labelled(base, s), Moves(k.arms, s, to));
    }
    SumSame(states, MovesFrom(k, s), CountIn(k.cases, cand, Labelled(base, s)));
  }

  lemma Into(k: Cohort, s: State, states: seq<State>)
    requires Distinct(states) && forall t: State :: t in states
    ensures SumOver(states, MovesTo(k, s)) == Count(k.cases, Labelled(StateOf(k.arms, Cand), s))
  {
    hide StateOf, SumOver, Count, Where;
    var base, cand := StateOf(k.arms, Base), StateOf(k.arms, Cand);
    Conserved(k.cases, base, states, Labelled(cand, s));
    forall from | from in states ensures MovesTo(k, s)(from) == CountIn(k.cases, base, Labelled(cand, s))(from) {
      CountWhere(k.cases, Labelled(base, from), Labelled(cand, s), Moves(k.arms, from, s));
    }
    SumSame(states, MovesTo(k, s), CountIn(k.cases, base, Labelled(cand, s)));
  }

  lemma AllStates()
    ensures Distinct(STATES) && forall s: State :: s in STATES
  {
    forall s: State ensures s in STATES {
      match s
      case WasAccepted => assert s == STATES[0];
      case WasRejected => assert s == STATES[1];
      case WasPending => assert s == STATES[2];
      case WasUnknown => assert s == STATES[3];
      case Unqualified => assert s == STATES[4];
      case Missing => assert s == STATES[5];
    }
  }

  // The state of a case in the given rows, as a report names it.
  lemma StateMeans(arms: Arms, side: Side, c: Case)
    ensures var rows, s := if side.Base? then arms.base else arms.cand, StateOf(arms, side)(c);
      && (s == Missing <==> c !in rows)
      && (s == Unqualified <==> c in rows && !rows[c].qualified)
      && (s == WasAccepted <==> c in rows && rows[c].qualified && rows[c].disposition == Accepted)
      && (s == WasRejected <==> c in rows && rows[c].qualified && rows[c].disposition == Rejected)
      && (s == WasPending <==> c in rows && rows[c].qualified && rows[c].disposition == Pending)
      && (s == WasUnknown <==> c in rows && rows[c].qualified && rows[c].disposition == Unknown)
  {
  }

  const QUALIFIED_STATES := [WasAccepted, WasRejected, WasPending, WasUnknown]

  // The two tables agree: what a rate counts in one arm are the cases of that state whose other row is qualified.
  lemma RatesAreTransitions(k: Cohort, minCases: nat, minCoverage: real)
    requires minCases > 0
    ensures var a, r := RateOf(AcceptanceRate, k, minCases, minCoverage), RateOf(RejectionRate, k, minCases, minCoverage);
      && a.base.count == SumOver(QUALIFIED_STATES, MovesFrom(k, WasAccepted))
      && a.cand.count == SumOver(QUALIFIED_STATES, MovesTo(k, WasAccepted))
      && r.base.count == SumOver(QUALIFIED_STATES, MovesFrom(k, WasRejected))
      && r.cand.count == SumOver(QUALIFIED_STATES, MovesTo(k, WasRejected))
  {
    HitsMove(AcceptanceRate, WasAccepted, k.cases, k.arms);
    HitsMove(RejectionRate, WasRejected, k.cases, k.arms);
    SumSame(QUALIFIED_STATES, MovesFrom(k, WasAccepted), MovingFrom(k.cases, k.arms, WasAccepted));
    SumSame(QUALIFIED_STATES, MovesTo(k, WasAccepted), MovingTo(k.cases, k.arms, WasAccepted));
    SumSame(QUALIFIED_STATES, MovesFrom(k, WasRejected), MovingFrom(k.cases, k.arms, WasRejected));
    SumSame(QUALIFIED_STATES, MovesTo(k, WasRejected), MovingTo(k.cases, k.arms, WasRejected));
  }

  function MovingFrom(cases: seq<Case>, arms: Arms, from: State): State -> nat { to => Count(cases, Moves(arms, from, to)) }

  function MovingTo(cases: seq<Case>, arms: Arms, to: State): State -> nat { from => Count(cases, Moves(arms, from, to)) }

  lemma {:induction false} HitsMove(m: Metric, s: State, cases: seq<Case>, arms: Arms)
    requires (m == AcceptanceRate && s == WasAccepted) || (m == RejectionRate && s == WasRejected)
    ensures Count(cases, IsHit(m, arms, Base)) == SumOver(QUALIFIED_STATES, MovingFrom(cases, arms, s))
    ensures Count(cases, IsHit(m, arms, Cand)) == SumOver(QUALIFIED_STATES, MovingTo(cases, arms, s))
  {
    if cases == [] {
      NothingToSum(QUALIFIED_STATES, MovingFrom(cases, arms, s));
      NothingToSum(QUALIFIED_STATES, MovingTo(cases, arms, s));
    } else {
      hide StateOf, IsHit, SumOver, Count, MovingFrom, MovingTo;
      CountStep(cases, IsHit(m, arms, Base));
      CountStep(cases, IsHit(m, arms, Cand));
      HitsMove(m, s, cases[1..], arms);
      HitsAre(m, s, arms, cases[0]);
      OneMovesFrom(s, cases, arms);
      OneMovesTo(s, cases, arms);
    }
  }

  lemma OneMovesFrom(s: State, cases: seq<Case>, arms: Arms)
    requires cases != []
    ensures var c := cases[0]; var b, d := StateOf(arms, Base)(c), StateOf(arms, Cand)(c);
      SumOver(QUALIFIED_STATES, MovingFrom(cases, arms, s)) ==
      SumOver(QUALIFIED_STATES, MovingFrom(cases[1..], arms, s)) + if b == s && d != Missing && d != Unqualified then 1 else 0
  {
    hide SumOver, StateOf, Count;
    var b, d := StateOf(arms, Base)(cases[0]), StateOf(arms, Cand)(cases[0]);
    forall t ensures MovingFrom(cases, arms, s)(t) == MovingFrom(cases[1..], arms, s)(t) + if b == s && t == d then 1 else 0 {
      CountStep(cases, Moves(arms, s, t));
    }
    SumOneMore(MovingFrom(cases, arms, s), MovingFrom(cases[1..], arms, s), d, b == s);
  }

  lemma OneMovesTo(s: State, cases: seq<Case>, arms: Arms)
    requires cases != []
    ensures var c := cases[0]; var b, d := StateOf(arms, Base)(c), StateOf(arms, Cand)(c);
      SumOver(QUALIFIED_STATES, MovingTo(cases, arms, s)) ==
      SumOver(QUALIFIED_STATES, MovingTo(cases[1..], arms, s)) + if d == s && b != Missing && b != Unqualified then 1 else 0
  {
    hide SumOver, StateOf, Count;
    var b, d := StateOf(arms, Base)(cases[0]), StateOf(arms, Cand)(cases[0]);
    forall t ensures MovingTo(cases, arms, s)(t) == MovingTo(cases[1..], arms, s)(t) + if d == s && t == b then 1 else 0 {
      CountStep(cases, Moves(arms, t, s));
    }
    SumOneMore(MovingTo(cases, arms, s), MovingTo(cases[1..], arms, s), b, d == s);
  }

  lemma SumOneMore(f: State -> nat, g: State -> nat, at: State, more: bool)
    requires forall t :: f(t) == g(t) + if more && t == at then 1 else 0
    ensures SumOver(QUALIFIED_STATES, f) ==
      SumOver(QUALIFIED_STATES, g) + if more && at != Missing && at != Unqualified then 1 else 0
  {
    var q := QUALIFIED_STATES;
    assert q[0] == WasAccepted && q[1] == WasRejected && q[2] == WasPending && q[3] == WasUnknown;
    if more && at != Missing && at != Unqualified {
      SumShift(q, f, g, at, 1);
    } else {
      SumSame(q, f, g);
    }
  }

  lemma CountStep(cases: seq<Case>, p: Case -> bool)
    requires cases != []
    ensures Count(cases, p) == Count(cases[1..], p) + if p(cases[0]) then 1 else 0
  {
  }

  lemma HitsAre(m: Metric, s: State, arms: Arms, c: Case)
    requires (m == AcceptanceRate && s == WasAccepted) || (m == RejectionRate && s == WasRejected)
    ensures var b, d := StateOf(arms, Base)(c), StateOf(arms, Cand)(c);
      && (IsHit(m, arms, Base)(c) <==> b == s && d != Missing && d != Unqualified)
      && (IsHit(m, arms, Cand)(c) <==> d == s && b != Missing && b != Unqualified)
  {
    StateMeans(arms, Base, c);
    StateMeans(arms, Cand, c);
    RowMeans(m, arms, Base, c);
    RowMeans(m, arms, Cand, c);
  }

  // The figures of a report: each under its own heading.
  lemma MetricsMean(k: Cohort, minCases: nat, minCoverage: real)
    requires minCases > 0
    ensures var r := MetricsOf(k, minCases, minCoverage);
      && r.cases == |k.cases|
      && r.observedPairs == Count(k.cases, BothObserved(k.arms)) && r.qualifiedPairs == Count(k.cases, BothQualified(k.arms))
      && r.reasons == r.acceptance.reasons == r.rejection.reasons
      && r.acceptance.base.count == Count(k.cases, Shows(AcceptanceRate, k.arms, k.arms.base))
      && r.rejection.base.count == Count(k.cases, Shows(RejectionRate, k.arms, k.arms.base))
      && r.capture.base.count == Count(k.cases, Shows(CaptureRate, k.arms, k.arms.base))
  {
    RateMeans(AcceptanceRate, k, minCases, minCoverage);
    RateMeans(RejectionRate, k, minCases, minCoverage);
    RateMeans(CaptureRate, k, minCases, minCoverage);
    PairsMean(k.cases, k.arms);
  }
}
