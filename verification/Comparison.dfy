/**
 The two-arm comparison of vuoro_evidence/comparison.py: rates with every case in the denominator, bounds
 on what unresolved cases could still do, suppression gates, transitions and strata.

 Fractions are reals.  A case set lists each case once, so counting rows is counting cases.
 */
module Comparison {
  import opened Basics
  type Case = string

  datatype Disposition = Accepted | Rejected | Pending | Unknown

  datatype Observation = Observation(qualified: bool, disposition: Disposition, captured: Option<bool>)

  datatype Arms = Arms(base: map<Case, Observation>, cand: map<Case, Observation>)

  datatype Side = Base | Cand

  datatype Cohort = Cohort(cases: seq<Case>, arms: Arms)

  function Row(arms: Arms, side: Side, c: Case): Option<Observation> {
    var rows := if side.Base? then arms.base else arms.cand;
    if c in rows then Some(rows[c]) else None
  }

  function Swap(arms: Arms): Arms { Arms(arms.cand, arms.base) }

  /******* Counting *******/

  function Count(cases: seq<Case>, p: Case -> bool): nat {
    if cases == [] then 0 else (if p(cases[0]) then 1 else 0) + Count(cases[1..], p)
  }

  function Where(cases: seq<Case>, p: Case -> bool): seq<Case> {
    if cases == [] then []
    else if p(cases[0]) then [cases[0]] + Where(cases[1..], p)
    else Where(cases[1..], p)
  }

  lemma {:induction false} CountSame(cases: seq<Case>, p: Case -> bool, q: Case -> bool)
    requires forall c :: c in cases ==> p(c) == q(c)
    ensures Count(cases, p) == Count(cases, q)
  {
    if cases != [] {
      CountSame(cases[1..], p, q);
    }
  }

  lemma {:induction false} CountConcat(a: seq<Case>, b: seq<Case>, p: Case -> bool)
    ensures Count(a + b, p) == Count(a, p) + Count(b, p)
  {
    if a == [] {
      assert a + b == b;
    } else {
      assert (a + b)[1..] == a[1..] + b;
      CountConcat(a[1..], b, p);
    }
  }

  lemma {:induction false} WhereConcat(a: seq<Case>, b: seq<Case>, p: Case -> bool)
    ensures Where(a + b, p) == Where(a, p) + Where(b, p)
  {
    if a == [] {
      assert a + b == b;
    } else {
      assert (a + b)[1..] == a[1..] + b;
      WhereConcat(a[1..], b, p);
    }
  }

  /******* Pairs and gates *******/

  function ObservedPair(arms: Arms): Case -> bool { c => c in arms.base && c in arms.cand }

  function QualifiedPair(arms: Arms): Case -> bool {
    c => c in arms.base && c in arms.cand && arms.base[c].qualified && arms.cand[c].qualified
  }

  datatype Reason =
    | CasesBelowMinimum | PairsBelowMinimum | CoverageBelowMinimum
    | QualifiedPairsBelowMinimum | QualificationCoverageBelowMinimum

  function Ratio(a: int, n: nat): real
    requires n > 0
  {
    a as real / n as real
  }

  predicate CoverageShort(pairs: nat, n: nat, minCoverage: real) { n == 0 || Ratio(pairs, n) < minCoverage }

  function When(b: bool, reason: Reason): seq<Reason> { if b then [reason] else [] }

  function ObservedGate(k: Cohort, minCases: nat, minCoverage: real): seq<Reason> {
    var n, pairs := |k.cases|, Count(k.cases, ObservedPair(k.arms));
    When(n < minCases, CasesBelowMinimum) + When(pairs < minCases, PairsBelowMinimum)
    + When(CoverageShort(pairs, n, minCoverage), CoverageBelowMinimum)
  }

  function Gate(k: Cohort, minCases: nat, minCoverage: real): seq<Reason> {
    var n, pairs := |k.cases|, Count(k.cases, QualifiedPair(k.arms));
    ObservedGate(k, minCases, minCoverage) + When(pairs < minCases, QualifiedPairsBelowMinimum)
    + When(CoverageShort(pairs, n, minCoverage), QualificationCoverageBelowMinimum)
  }

  /******* Rates *******/

  datatype Metric = AcceptanceRate | RejectionRate | CaptureRate

  predicate Hit(m: Metric, o: Observation) {
    match m
    case AcceptanceRate => o.qualified && o.disposition == Accepted
    case RejectionRate => o.qualified && o.disposition == Rejected
    case CaptureRate => o.captured == Some(true)
  }

  predicate Resolved(m: Metric, o: Observation) {
    match m
    case CaptureRate => o.captured.Some?
    case _ => o.qualified && (o.disposition == Accepted || o.disposition == Rejected)
  }

  // The pairs a metric is taken over, and the gate that suppresses it.
  function Pair(m: Metric, arms: Arms): Case -> bool {
    if m.CaptureRate? then ObservedPair(arms) else QualifiedPair(arms)
  }

  function MetricGate(m: Metric, k: Cohort, minCases: nat, minCoverage: real): seq<Reason> {
    if m.CaptureRate? then ObservedGate(k, minCases, minCoverage) else Gate(k, minCases, minCoverage)
  }

  function IsHit(m: Metric, arms: Arms, side: Side): Case -> bool {
    c => Pair(m, arms)(c) && Row(arms, side, c).Some? && Hit(m, Row(arms, side, c).value)
  }

  function IsUnresolved(m: Metric, arms: Arms, side: Side): Case -> bool {
    c => !Pair(m, arms)(c) || Row(arms, side, c).None? || !Resolved(m, Row(arms, side, c).value)
  }

  datatype Tally = Tally(count: nat, unresolved: nat)

  function TallyOf(m: Metric, k: Cohort, side: Side): Tally {
    Tally(Count(k.cases, IsHit(m, k.arms, side)), Count(k.cases, IsUnresolved(m, k.arms, side)))
  }

  datatype Figures = Suppressed | Computed(baseRate: real, candRate: real, delta: real, lower: real, upper: real)

  datatype Rate = Rate(denominator: nat, base: Tally, cand: Tally, reasons: seq<Reason>, figures: Figures)

  // A metric whose gate passes has cases to divide by.
  lemma GateNeedsCases(m: Metric, k: Cohort, minCases: nat, minCoverage: real)
    requires minCases > 0 && MetricGate(m, k, minCases, minCoverage) == []
    ensures |k.cases| >= minCases
  {
    var n, pairs := |k.cases|, Count(k.cases, ObservedPair(k.arms));
    assert |ObservedGate(k, minCases, minCoverage)| == 0;
    assert n < minCases ==> |ObservedGate(k, minCases, minCoverage)| > 0;
  }

  function RateOf(m: Metric, k: Cohort, minCases: nat, minCoverage: real): Rate
    requires minCases > 0
  {
    var n, base, cand, reasons := |k.cases|, TallyOf(m, k, Base), TallyOf(m, k, Cand), MetricGate(m, k, minCases, minCoverage);
    Rate(n, base, cand, reasons,
         if reasons != [] then Suppressed
         else
           GateNeedsCases(m, k, minCases, minCoverage);
           Computed(Ratio(base.count, n), Ratio(cand.count, n), Ratio(cand.count - base.count, n),
                    Ratio(cand.count - base.count - base.unresolved, n),
                    Ratio(cand.count + cand.unresolved - base.count, n)))
  }

  /******* What unresolved cases could still do *******/

  // Each unresolved case of an arm is settled as a hit or a miss.
  function Settled(m: Metric, arms: Arms, side: Side, choice: Case -> bool): Case -> bool {
    c => if IsUnresolved(m, arms, side)(c) then choice(c) else IsHit(m, arms, side)(c)
  }

  // The rate difference of a cohort in which everything is settled.
  function SettledDelta(m: Metric, k: Cohort, base: Case -> bool, cand: Case -> bool): real
    requires k.cases != []
  {
    Ratio(Count(k.cases, Settled(m, k.arms, Cand, cand)) - Count(k.cases, Settled(m, k.arms, Base, base)), |k.cases|)
  }

  lemma HitIsResolved(m: Metric, arms: Arms, side: Side, c: Case)
    ensures IsHit(m, arms, side)(c) ==> !IsUnresolved(m, arms, side)(c)
  {
    if IsHit(m, arms, side)(c) {
      assert Pair(m, arms)(c);
      var o := Row(arms, side, c).value;
      assert Hit(m, o);
      match m {
        case AcceptanceRate => assert Resolved(m, o);
        case RejectionRate => assert Resolved(m, o);
        case CaptureRate => assert Resolved(m, o);
      }
    }
  }

  lemma {:induction false} SettledCount(m: Metric, cases: seq<Case>, arms: Arms, side: Side, choice: Case -> bool)
    ensures var hits, open, settled := Count(cases, IsHit(m, arms, side)), Count(cases, IsUnresolved(m, arms, side)),
                                       Count(cases, Settled(m, arms, side, choice));
      && hits <= settled <= hits + open
      && ((forall c :: c in cases ==> !choice(c)) ==> settled == hits)
      && ((forall c :: c in cases ==> choice(c)) ==> settled == hits + open)
  {
    if cases != [] {
      SettledCount(m, cases[1..], arms, side, choice);
      assert cases == [cases[0]] + cases[1..];
      HitIsResolved(m, arms, side, cases[0]);
    }
  }

  lemma RatioOrder(a: int, b: int, n: nat)
    requires n > 0
    ensures Ratio(a, n) <= Ratio(b, n) <==> a <= b
    ensures Ratio(-a, n) == -Ratio(a, n)
  {
    var x, y, d := a as real, b as real, n as real;
    assert (x / d) * d == x && (y / d) * d == y && (-x / d) * d == -x;
    if x / d <= y / d {
      assert (x / d) * d <= (y / d) * d;
    }
    if x <= y && x / d > y / d {
      assert (x / d) * d > (y / d) * d;
    }
  }

  // The reported bounds hold however the unresolved cases of both arms are settled; both are reached, and so
  // is the reported delta, when every unresolved case is a miss.
  lemma BoundsAreTight(m: Metric, k: Cohort, minCases: nat, minCoverage: real, base: Case -> bool, cand: Case -> bool)
    requires minCases > 0 && RateOf(m, k, minCases, minCoverage).figures.Computed?
    ensures k.cases != []
    ensures var f := RateOf(m, k, minCases, minCoverage).figures;
      && f.lower <= SettledDelta(m, k, base, cand) <= f.upper
      && ((forall c :: base(c) && !cand(c)) ==> SettledDelta(m, k, base, cand) == f.lower)
      && ((forall c :: !base(c) && cand(c)) ==> SettledDelta(m, k, base, cand) == f.upper)
      && ((forall c :: !base(c) && !cand(c)) ==> SettledDelta(m, k, base, cand) == f.delta)
  {
    hide Gate, ObservedGate, Ratio, IsHit, IsUnresolved, Settled;
    GateNeedsCases(m, k, minCases, minCoverage);
    SettledCount(m, k.cases, k.arms, Base, base);
    SettledCount(m, k.cases, k.arms, Cand, cand);
    var b, c, n := TallyOf(m, k, Base), TallyOf(m, k, Cand), |k.cases|;
    var d := Count(k.cases, Settled(m, k.arms, Cand, cand)) - Count(k.cases, Settled(m, k.arms, Base, base));
    RatioOrder(c.count - b.count - b.unresolved, d, n);
    RatioOrder(d, c.count + c.unresolved - b.count, n);
  }

  /******* What the figures say *******/

  // The case shows, in the given rows, what the metric counts.
  function Shows(m: Metric, arms: Arms, rows: map<Case, Observation>): Case -> bool {
    c => c in arms.base && c in arms.cand && c in rows &&
      match m
      case AcceptanceRate => arms.base[c].qualified && arms.cand[c].qualified && rows[c].disposition == Accepted
      case RejectionRate => arms.base[c].qualified && arms.cand[c].qualified && rows[c].disposition == Rejected
      case CaptureRate => rows[c].captured == Some(true)
  }

  // Nothing is known of the case in the given rows, as far as the metric goes.
  function LeavesOpen(m: Metric, arms: Arms, rows: map<Case, Observation>): Case -> bool {
    c => !(c in arms.base && c in arms.cand && c in rows) ||
      match m
      case CaptureRate => rows[c].captured == None
      case _ =>
        || !arms.base[c].qualified || !arms.cand[c].qualified
        || rows[c].disposition == Pending || rows[c].disposition == Unknown
  }

  lemma RowMeans(m: Metric, arms: Arms, side: Side, c: Case)
    ensures var rows := if side.Base? then arms.base else arms.cand;
      IsHit(m, arms, side)(c) == Shows(m, arms, rows)(c) && IsUnresolved(m, arms, side)(c) == LeavesOpen(m, arms, rows)(c)
  {
    assert Pair(m, arms)(c) == (c in arms.base && c in arms.cand && (m == CaptureRate || QualifiedPair(arms)(c)));
    assert QualifiedPair(arms)(c) == (c in arms.base && c in arms.cand && arms.base[c].qualified && arms.cand[c].qualified);
    hide Pair, QualifiedPair;
    if c in arms.base && c in arms.cand {
      var o := Row(arms, side, c).value;
      match m {
        case AcceptanceRate => assert Hit(m, o) == (o.qualified && o.disposition == Accepted);
        case RejectionRate => assert Hit(m, o) == (o.qualified && o.disposition == Rejected);
        case CaptureRate => assert Hit(m, o) == (o.captured == Some(true));
      }
    }
  }

  lemma SideMeans(m: Metric, k: Cohort, side: Side)
    ensures var rows := if side.Base? then k.arms.base else k.arms.cand;
      TallyOf(m, k, side) == Tally(Count(k.cases, Shows(m, k.arms, rows)), Count(k.cases, LeavesOpen(m, k.arms, rows)))
  {
    hide Count, IsHit, IsUnresolved, Shows, LeavesOpen;
    var rows := if side.Base? then k.arms.base else k.arms.cand;
    forall c ensures IsHit(m, k.arms, side)(c) == Shows(m, k.arms, rows)(c)
                  && IsUnresolved(m, k.arms, side)(c) == LeavesOpen(m, k.arms, rows)(c)
    {
      RowMeans(m, k.arms, side, c);
    }
    CountSame(k.cases, IsHit(m, k.arms, side), Shows(m, k.arms, rows));
    CountSame(k.cases, IsUnresolved(m, k.arms, side), LeavesOpen(m, k.arms, rows));
  }

  // Every case is in the denominator; each rate times the denominator is the count of its own arm, and the delta is
  // the candidate's rate less the baseline's.
  lemma RateMeans(m: Metric, k: Cohort, minCases: nat, minCoverage: real)
    requires minCases > 0
    ensures var r := RateOf(m, k, minCases, minCoverage);
      && r.denominator == |k.cases|
      && r.base.count == Count(k.cases, Shows(m, k.arms, k.arms.base))
      && r.cand.count == Count(k.cases, Shows(m, k.arms, k.arms.cand))
      && r.base.unresolved == Count(k.cases, LeavesOpen(m, k.arms, k.arms.base))
      && r.cand.unresolved == Count(k.cases, LeavesOpen(m, k.arms, k.arms.cand))
      && (r.figures.Suppressed? <==> r.reasons != [])
      && (r.figures.Computed? ==>
            && r.figures.baseRate * |k.cases| as real == r.base.count as real
            && r.figures.candRate * |k.cases| as real == r.cand.count as real
            && r.figures.delta == r.figures.candRate - r.figures.baseRate)
  {
    hide MetricGate, TallyOf, Shows, LeavesOpen, Count;
    SideMeans(m, k, Base);
    SideMeans(m, k, Cand);
    var r := RateOf(m, k, minCases, minCoverage);
    if r.figures.Computed? {
      GateNeedsCases(m, k, minCases, minCoverage);
      RatioTimes(r.base.count, |k.cases|);
      RatioTimes(r.cand.count, |k.cases|);
      RatioDifference(r.cand.count, r.base.count, |k.cases|);
    }
  }

  lemma RatioTimes(a: int, n: nat)
    requires n > 0
    ensures Ratio(a, n) * n as real == a as real
  {
  }

  lemma RatioDifference(a: int, b: int, n: nat)
    requires n > 0
    ensures Ratio(a - b, n) == Ratio(a, n) - Ratio(b, n)
  {
    var d := n as real;
    assert (a - b) as real == a as real - b as real;
    assert (a as real - b as real) / d == a as real / d - b as real / d;
  }

  lemma GateReasons(m: Metric, k: Cohort, minCases: nat, minCoverage: real, x: Reason)
    ensures var n, o, q := |k.cases|, Count(k.cases, ObservedPair(k.arms)), Count(k.cases, QualifiedPair(k.arms));
      x in MetricGate(m, k, minCases, minCoverage) <==>
      || (x == CasesBelowMinimum && n < minCases) || (x == PairsBelowMinimum && o < minCases)
      || (x == CoverageBelowMinimum && CoverageShort(o, n, minCoverage))
      || (m != CaptureRate && x == QualifiedPairsBelowMinimum && q < minCases)
      || (m != CaptureRate && x == QualificationCoverageBelowMinimum && CoverageShort(q, n, minCoverage))
  {
    hide Count, ObservedPair, QualifiedPair, CoverageShort, When;
    var n, o, q := |k.cases|, Count(k.cases, ObservedPair(k.arms)), Count(k.cases, QualifiedPair(k.arms));
    InWhen(n < minCases, CasesBelowMinimum, x);
    InWhen(o < minCases, PairsBelowMinimum, x);
    InWhen(CoverageShort(o, n, minCoverage), CoverageBelowMinimum, x);
    InWhen(q < minCases, QualifiedPairsBelowMinimum, x);
    InWhen(CoverageShort(q, n, minCoverage), QualificationCoverageBelowMinimum, x);
  }

  function BothObserved(arms: Arms): Case -> bool { c => c in arms.base && c in arms.cand }

  function BothQualified(arms: Arms): Case -> bool {
    c => c in arms.base && c in arms.cand && arms.base[c].qualified && arms.cand[c].qualified
  }

  // Each reason for suppression is given exactly when its own minimum is missed, and a capture rate is not suppressed
  // for want of qualification.
  lemma ReasonsMean(m: Metric, k: Cohort, minCases: nat, minCoverage: real)
    requires minCases > 0
    ensures var n, o, q := |k.cases|, Count(k.cases, BothObserved(k.arms)), Count(k.cases, BothQualified(k.arms));
      var reasons := RateOf(m, k, minCases, minCoverage).reasons;
      && (CasesBelowMinimum in reasons <==> n < minCases)
      && (PairsBelowMinimum in reasons <==> o < minCases)
      && (CoverageBelowMinimum in reasons <==> n == 0 || o as real < minCoverage * n as real)
      && (QualifiedPairsBelowMinimum in reasons <==> m != CaptureRate && q < minCases)
      && (QualificationCoverageBelowMinimum in reasons <==> m != CaptureRate && (n == 0 || (q as real < minCoverage * n as real)))
  {
    PairsMean(k.cases, k.arms);
    hide Count, ObservedPair, QualifiedPair, CoverageShort, MetricGate, TallyOf, Ratio, BothObserved, BothQualified;
    var n, o, q := |k.cases|, Count(k.cases, ObservedPair(k.arms)), Count(k.cases, QualifiedPair(k.arms));
    ShortMeans(o, n, minCoverage);
    ShortMeans(q, n, minCoverage);
    forall x ensures x in RateOf(m, k, minCases, minCoverage).reasons <==> x in MetricGate(m, k, minCases, minCoverage) {
    }
    GateReasons(m, k, minCases, minCoverage, CasesBelowMinimum);
    GateReasons(m, k, minCases, minCoverage, PairsBelowMinimum);
    GateReasons(m, k, minCases, minCoverage, CoverageBelowMinimum);
    GateReasons(m, k, minCases, minCoverage, QualifiedPairsBelowMinimum);
    GateReasons(m, k, minCases, minCoverage, QualificationCoverageBelowMinimum);
  }

  lemma PairsMean(cases: seq<Case>, arms: Arms)
    ensures Count(cases, ObservedPair(arms)) == Count(cases, BothObserved(arms))
    ensures Count(cases, QualifiedPair(arms)) == Count(cases, BothQualified(arms))
  {
    CountSame(cases, ObservedPair(arms), BothObserved(arms));
    CountSame(cases, QualifiedPair(arms), BothQualified(arms));
  }

  lemma InWhen(b: bool, reason: Reason, x: Reason)
    ensures x in When(b, reason) <==> b && x == reason
  {
  }

  lemma ShortMeans(a: nat, n: nat, minCoverage: real)
    ensures CoverageShort(a, n, minCoverage) <==> n == 0 || (a as real < minCoverage * n as real)
  {
    if n > 0 {
      var x, d := a as real, n as real;
      assert (x / d) * d == x;
      if x / d < minCoverage {
        assert (x / d) * d < minCoverage * d;
      } else {
        assert (x / d) * d >= minCoverage * d;
      }
    }
  }

  /******* Exchanging the arms *******/

  lemma SwapCounts(m: Metric, cases: seq<Case>, arms: Arms)
    ensures Count(cases, ObservedPair(Swap(arms))) == Count(cases, ObservedPair(arms))
    ensures Count(cases, QualifiedPair(Swap(arms))) == Count(cases, QualifiedPair(arms))
    ensures Count(cases, IsHit(m, Swap(arms), Base)) == Count(cases, IsHit(m, arms, Cand))
    ensures Count(cases, IsHit(m, Swap(arms), Cand)) == Count(cases, IsHit(m, arms, Base))
    ensures Count(cases, IsUnresolved(m, Swap(arms), Base)) == Count(cases, IsUnresolved(m, arms, Cand))
    ensures Count(cases, IsUnresolved(m, Swap(arms), Cand)) == Count(cases, IsUnresolved(m, arms, Base))
  {
    forall c ensures Pair(m, Swap(arms))(c) == Pair(m, arms)(c) {
    }
    forall c ensures Row(Swap(arms), Base, c) == Row(arms, Cand, c) && Row(Swap(arms), Cand, c) == Row(arms, Base, c) {
    }
    CountSame(cases, ObservedPair(Swap(arms)), ObservedPair(arms));
    CountSame(cases, QualifiedPair(Swap(arms)), QualifiedPair(arms));
    CountSame(cases, IsHit(m, Swap(arms), Base), IsHit(m, arms, Cand));
    CountSame(cases, IsHit(m, Swap(arms), Cand), IsHit(m, arms, Base));
    CountSame(cases, IsUnresolved(m, Swap(arms), Base), IsUnresolved(m, arms, Cand));
    CountSame(cases, IsUnresolved(m, Swap(arms), Cand), IsUnresolved(m, arms, Base));
  }

  lemma SwapGate(m: Metric, k: Cohort, minCases: nat, minCoverage: real)
    ensures MetricGate(m, Cohort(k.cases, Swap(k.arms)), minCases, minCoverage) == MetricGate(m, k, minCases, minCoverage)
  {
    hide ObservedPair, QualifiedPair, Count, CoverageShort, When, IsHit, IsUnresolved;
    SwapCounts(m, k.cases, k.arms);
  }

  // Swapping the arms negates the delta, exchanges the negated bounds, and suppresses the same metrics.
  lemma SwapNegates(m: Metric, k: Cohort, minCases: nat, minCoverage: real)
    requires minCases > 0
    ensures var r, s := RateOf(m, k, minCases, minCoverage), RateOf(m, Cohort(k.cases, Swap(k.arms)), minCases, minCoverage);
      && s.reasons == r.reasons && s.denominator == r.denominator && s.base == r.cand && s.cand == r.base
      && (r.figures.Suppressed? <==> s.figures.Suppressed?)
      && (r.figures.Computed? ==>
            && s.figures.delta == -r.figures.delta
            && s.figures.lower == -r.figures.upper && s.figures.upper == -r.figures.lower
            && s.figures.baseRate == r.figures.candRate && s.figures.candRate == r.figures.baseRate)
  {
    hide MetricGate, IsHit, IsUnresolved, Ratio, Count;
    SwapCounts(m, k.cases, k.arms);
    SwapGate(m, k, minCases, minCoverage);
    var r := RateOf(m, k, minCases, minCoverage);
    if r.figures.Computed? {
      GateNeedsCases(m, k, minCases, minCoverage);
      RatioOrder(r.cand.count - r.base.count, 0, r.denominator);
      RatioOrder(r.cand.count - r.base.count - r.base.unresolved, 0, r.denominator);
      RatioOrder(r.cand.count + r.cand.unresolved - r.base.count, 0, r.denominator);
    }
  }
}
