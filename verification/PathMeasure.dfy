/** What downstream code relies on: after normalisation no probability mass is created or
    lost along the paths of the policy graph. Over exact arithmetic. */
module PathMeasure {
  import opened Ordering
  import opened Reals
  import opened Weights
  import opened PolicyGraph

  type Edge = Transition<Exact>

  /** The values of a source's out-edge probabilities, in declaration order. */
  function OutValues(ts: seq<Edge>, source: int): seq<real> {
    Values(Map(OutEdges(ts, source), Probability))
  }

  /** Every source's out-edge probabilities sum to one. */
  ghost predicate Stochastic(ts: seq<Edge>) {
    forall s | IsSource(ts, s) :: RealSum(OutValues(ts, s)) == 1.0
  }

  // ---------------------------------------------------------------- out-edges sum to one

  /** The canonical weights of a source are a rearrangement of its declared ones. */
  lemma CanonicalPermutes<F>(ts: seq<Transition<F>>, source: int)
    ensures Permuted(CanonicalWeights(ts, source), Map(OutEdges(ts, source), Probability))
  {
    var edges := OutEdges(ts, source);
    MapPermuted(StableSort(edges, TargetKey), edges, Probability);
  }

  lemma CanonicalIsRearrangement(ts: seq<Edge>, source: int)
    ensures Permuted(CanonicalWeights(ts, source), Map(OutEdges(ts, source), Probability))
    ensures RealSum(Values(CanonicalWeights(ts, source))) == RealSum(OutValues(ts, source))
  {
    CanonicalPermutes(ts, source);
    var a, b := CanonicalWeights(ts, source), Map(OutEdges(ts, source), Probability);
    hide CanonicalWeights, OutEdges;
    MapPermuted(a, b, ValueOf);
    RealSumPermuted(Values(a), Values(b));
  }

  function RescaleIn<F>(m: Arithmetic<F>, ts: seq<Transition<F>>): Transition<F> -> Transition<F> {
    (t: Transition<F>) => Rescaled(m, ts, t)
  }

  lemma SameSources<F>(m: Arithmetic<F>, was: seq<Transition<F>>, now: seq<Transition<F>>, source: int)
    requires AllWritten(m, was, now)
    ensures IsSource(now, source) <==> IsSource(was, source)
  {
    forall i | 0 <= i < |was| ensures now[i].source == was[i].source {
      RescaledKeepsSource(m, was, was[i]);
    }
    hide AllWritten, Rescaled;
    if IsSource(was, source) {
      var t :| t in was && t.source == source;
      var i :| 0 <= i < |was| && was[i] == t;
      assert now[i] in now;
    }
    if IsSource(now, source) {
      var t :| t in now && t.source == source;
      var i :| 0 <= i < |now| && now[i] == t;
      assert was[i] in was;
    }
  }

  /** The out-edges of a source, before and after, match one to one. */
  lemma OutEdgesRescaled<F>(m: Arithmetic<F>, was: seq<Transition<F>>, now: seq<Transition<F>>, source: int)
    requires AllWritten(m, was, now)
    ensures OutEdges(now, source) == Map(OutEdges(was, source), RescaleIn(m, was))
    ensures IsSource(now, source) <==> IsSource(was, source)
  {
    SameSources(m, was, now, source);
    assert now == Map(was, RescaleIn(m, was));
    hide Rescaled, IsSource, Map, Select;
    forall t | t in was ensures SourceKey(RescaleIn(m, was)(t)) == SourceKey(t) {
      RescaledKeepsSource(m, was, t);
    }
    SelectMap(was, SourceKey, RescaleIn(m, was), SourceKey, Key(source, 0));
  }

  lemma RescaledKeepsSource<F>(m: Arithmetic<F>, ts: seq<Transition<F>>, t: Transition<F>)
    ensures Rescaled(m, ts, t).source == t.source
  {
  }

  lemma CanonicalMembers(ts: seq<Edge>, source: int)
    ensures AllFinite(CanonicalWeights(ts, source)) <==> AllFinite(Map(OutEdges(ts, source), Probability))
  {
    CanonicalIsRearrangement(ts, source);
    var a, b := CanonicalWeights(ts, source), Map(OutEdges(ts, source), Probability);
    PermutedLength(a, b);
    hide *;
    FiniteMembers(a, b);
    FiniteMembers(b, a);
  }

  lemma FiniteMembers(a: seq<Exact>, b: seq<Exact>)
    requires forall x | x in b :: x in a
    ensures AllFinite(a) ==> AllFinite(b)
  {
    if AllFinite(a) {
      forall i | 0 <= i < |b| ensures b[i].Finite? {
        assert b[i] in a;
      }
    }
  }

  /** Each source's out-edge probabilities sum to exactly one after normalisation. */
  lemma NormalisedIsStochastic(was: seq<Edge>, now: seq<Edge>)
    requires AllWritten(ExactArithmetic(), was, now)
    requires forall s | IsSource(was, s) :: Scalable(ExactArithmetic(), was, s)
    ensures Stochastic(now)
  {
    var m := ExactArithmetic();
    forall s | IsSource(now, s) ensures RealSum(OutValues(now, s)) == 1.0 {
      OutEdgesRescaled(m, was, now, s);
      SourceSumsToOne(was, now, s);
    }
  }

  /** The total that a scalable source is divided by. */
  lemma SourceTotal(ts: seq<Edge>, source: int)
    requires Scalable(ExactArithmetic(), ts, source)
    ensures AllFinite(Map(OutEdges(ts, source), Probability))
    ensures RealSum(OutValues(ts, source)) != 0.0
    ensures Total(ExactArithmetic(), CanonicalWeights(ts, source)) == Finite(RealSum(OutValues(ts, source)))
  {
    hide CanonicalWeights, RealSum, Total;
    UnscalableExactly(CanonicalWeights(ts, source));
    CanonicalMembers(ts, source);
    CanonicalIsRearrangement(ts, source);
    ExactTotal(CanonicalWeights(ts, source));
  }

  lemma SourceSumsToOne(was: seq<Edge>, now: seq<Edge>, source: int)
    requires OutEdges(now, source) == Map(OutEdges(was, source), RescaleIn(ExactArithmetic(), was))
    requires Scalable(ExactArithmetic(), was, source)
    ensures RealSum(OutValues(now, source)) == 1.0
  {
    hide *;
    var total := RealSum(OutValues(was, source));
    SourceTotal(was, source);
    QuotientsOfTotal(was, now, source, total);
    SumOfQuotients(OutValues(was, source), total, OutValues(now, source));
    assert total / total == 1.0;
  }

  lemma QuotientsOfTotal(was: seq<Edge>, now: seq<Edge>, source: int, total: real)
    requires OutEdges(now, source) == Map(OutEdges(was, source), RescaleIn(ExactArithmetic(), was))
    requires AllFinite(Map(OutEdges(was, source), Probability))
    requires Total(ExactArithmetic(), CanonicalWeights(was, source)) == Finite(total) && total != 0.0
    ensures |OutValues(now, source)| == |OutValues(was, source)|
    ensures forall i | 0 <= i < |OutValues(was, source)| ::
              OutValues(now, source)[i] == OutValues(was, source)[i] / total
  {
    var edges := OutEdges(was, source);
    assert forall t | t in edges :: SourceKey(t) == Key(source, 0);
    hide CanonicalWeights, OutEdges, Total;
    forall i | 0 <= i < |edges| ensures OutValues(now, source)[i] == OutValues(was, source)[i] / total {
      assert edges[i] in edges;
      assert Map(edges, Probability)[i].Finite?;
      RescaledQuotient(was, edges[i], total);
      assert OutEdges(now, source)[i] == Rescaled(ExactArithmetic(), was, edges[i]);
    }
  }

  lemma RescaledQuotient(ts: seq<Edge>, t: Edge, total: real)
    requires Total(ExactArithmetic(), CanonicalWeights(ts, t.source)) == Finite(total) && total != 0.0
    requires t.probability.Finite?
    ensures Rescaled(ExactArithmetic(), ts, t).probability == Finite(t.probability.value / total)
  {
    hide CanonicalWeights, Total;
    assert ExactArithmetic().div(t.probability, Finite(total)) == ExactDiv(t.probability, Finite(total));
  }

  lemma NormalisedIsFinite(was: seq<Edge>, now: seq<Edge>, source: int)
    requires AllWritten(ExactArithmetic(), was, now)
    requires Scalable(ExactArithmetic(), was, source)
    ensures AllFinite(Map(OutEdges(now, source), Probability))
  {
    OutEdgesRescaled(ExactArithmetic(), was, now, source);
    SourceTotal(was, source);
    var edges := OutEdges(was, source);
    assert forall t | t in edges :: SourceKey(t) == Key(source, 0);
    hide CanonicalWeights, OutEdges, Total, RealSum;
    forall i | 0 <= i < |edges| ensures Map(OutEdges(now, source), Probability)[i].Finite? {
      assert edges[i] in edges;
      assert Map(edges, Probability)[i].Finite?;
      RescaledQuotient(was, edges[i], RealSum(OutValues(was, source)));
      assert OutEdges(now, source)[i] == Rescaled(ExactArithmetic(), was, edges[i]);
    }
  }

  lemma RescaledByOne(ts: seq<Edge>, t: Edge)
    requires Total(ExactArithmetic(), CanonicalWeights(ts, t.source)) == Finite(1.0)
    requires t.probability.Finite?
    ensures Rescaled(ExactArithmetic(), ts, t) == t
  {
    hide CanonicalWeights, Total;
    RescaledQuotient(ts, t, 1.0);
  }

  lemma FiniteMember(ts: seq<Edge>, t: Edge)
    requires t in ts && AllFinite(Map(OutEdges(ts, t.source), Probability))
    ensures t.probability.Finite?
  {
    SelectHas(ts, SourceKey, t);
    var edges := OutEdges(ts, t.source);
    var i :| 0 <= i < |edges| && edges[i] == t;
    assert Map(edges, Probability)[i].Finite?;
  }

  lemma UnitTotal(ts: seq<Edge>, source: int)
    requires AllFinite(Map(OutEdges(ts, source), Probability)) && RealSum(OutValues(ts, source)) == 1.0
    ensures Scalable(ExactArithmetic(), ts, source)
    ensures Total(ExactArithmetic(), CanonicalWeights(ts, source)) == Finite(1.0)
  {
    hide CanonicalWeights, OutEdges, RealSum, Total, ExactArithmetic;
    CanonicalMembers(ts, source);
    CanonicalIsRearrangement(ts, source);
    UnscalableExactly(CanonicalWeights(ts, source));
    ExactTotal(CanonicalWeights(ts, source));
  }

  /** A second normalisation finds every source scalable and changes no edge. */
  lemma NormalisingTwice(was: seq<Edge>, now: seq<Edge>, t: Edge)
    requires AllWritten(ExactArithmetic(), was, now) && t in now
    requires forall s | IsSource(was, s) :: Scalable(ExactArithmetic(), was, s)
    ensures Scalable(ExactArithmetic(), now, t.source)
    ensures Rescaled(ExactArithmetic(), now, t) == t
  {
    assert IsSource(now, t.source);
    NormalisedIsStochastic(was, now);
    OutEdgesRescaled(ExactArithmetic(), was, now, t.source);
    assert RealSum(OutValues(now, t.source)) == 1.0;
    hide *;
    NormalisedIsFinite(was, now, t.source);
    UnitTotal(now, t.source);
    FiniteMember(now, t);
    RescaledByOne(now, t);
  }

  // ---------------------------------------------------------------- walks

  /** A share of the probability mass that a walk has carried to a node. */
  datatype Particle = Particle(node: int, mass: real)

  function Mass(ps: seq<Particle>): real {
    if ps == [] then 0.0 else Mass(ps[..|ps| - 1]) + ps[|ps| - 1].mass
  }

  /** One share per out-edge, in proportion to the probabilities. */
  function Branch(edges: seq<Edge>, mass: real): seq<Particle> {
    if edges == [] then [] else
    var e := edges[|edges| - 1];
    Branch(edges[..|edges| - 1], mass) + [Particle(e.target, mass * ValueOf(e.probability))]
  }

  /** A node without out-edges keeps what reached it. */
  function Spread(ts: seq<Edge>, p: Particle): seq<Particle> {
    if OutEdges(ts, p.node) == [] then [p] else Branch(OutEdges(ts, p.node), p.mass)
  }

  function Advance(ts: seq<Edge>, ps: seq<Particle>): seq<Particle> {
    if ps == [] then [] else Advance(ts, ps[..|ps| - 1]) + Spread(ts, ps[|ps| - 1])
  }

  /** Where the mass is after k steps from `start`. */
  function Walk(ts: seq<Edge>, start: int, k: nat): seq<Particle> {
    if k == 0 then [Particle(start, 1.0)] else Advance(ts, Walk(ts, start, k - 1))
  }

  lemma {:induction false} MassAppend(a: seq<Particle>, b: seq<Particle>)
    ensures Mass(a + b) == Mass(a) + Mass(b)
  {
    if b == [] {
      assert a + b == a;
    } else {
      MassAppend(a, b[..|b| - 1]);
      assert (a + b)[..|a + b| - 1] == a + b[..|b| - 1];
    }
  }

  lemma {:induction false} BranchMass(edges: seq<Edge>, mass: real)
    ensures Mass(Branch(edges, mass)) == mass * RealSum(Values(Map(edges, Probability)))
  {
    if edges != [] {
      var before, e := edges[..|edges| - 1], edges[|edges| - 1];
      BranchMass(before, mass);
      assert Branch(edges, mass)[..|Branch(edges, mass)| - 1] == Branch(before, mass);
      var values := Values(Map(edges, Probability));
      assert values[..|values| - 1] == Values(Map(before, Probability));
      assert mass * (RealSum(values[..|values| - 1]) + ValueOf(e.probability))
          == mass * RealSum(values[..|values| - 1]) + mass * ValueOf(e.probability);
    }
  }

  lemma {:induction false} NoEdgesNoSource(ts: seq<Edge>, node: int)
    ensures OutEdges(ts, node) != [] <==> IsSource(ts, node)
  {
    if OutEdges(ts, node) != [] {
      var t := OutEdges(ts, node)[0];
      assert t in OutEdges(ts, node);
    }
    if IsSource(ts, node) {
      var t :| t in ts && t.source == node;
      SelectHas(ts, SourceKey, t);
    }
  }

  lemma SpreadMass(ts: seq<Edge>, p: Particle)
    ensures Mass(Spread(ts, p)) ==
            if IsSource(ts, p.node) then p.mass * RealSum(OutValues(ts, p.node)) else p.mass
  {
    NoEdgesNoSource(ts, p.node);
    BranchMass(OutEdges(ts, p.node), p.mass);
    assert [p][..0] == [];
  }

  lemma {:induction false} AdvanceKeepsMass(ts: seq<Edge>, ps: seq<Particle>)
    requires Stochastic(ts)
    ensures Mass(Advance(ts, ps)) == Mass(ps)
  {
    if ps != [] {
      var p := ps[|ps| - 1];
      AdvanceKeepsMass(ts, ps[..|ps| - 1]);
      SpreadMass(ts, p);
      MassAppend(Advance(ts, ps[..|ps| - 1]), Spread(ts, p));
    }
  }

  /** A step conserves mass from every distribution exactly when the graph is stochastic. */
  lemma ConservedExactlyIfStochastic(ts: seq<Edge>)
    ensures Stochastic(ts) <==> forall ps :: Mass(Advance(ts, ps)) == Mass(ps)
  {
    if Stochastic(ts) {
      forall ps ensures Mass(Advance(ts, ps)) == Mass(ps) {
        AdvanceKeepsMass(ts, ps);
      }
    }
    if !Stochastic(ts) {
      var s :| IsSource(ts, s) && RealSum(OutValues(ts, s)) != 1.0;
      var p := Particle(s, 1.0);
      SpreadMass(ts, p);
      assert [p][..0] == [];
      assert Advance(ts, [p]) == Spread(ts, p);
      assert Mass(Advance(ts, [p])) != Mass([p]);
    }
  }

  lemma {:induction false} WalkMass(ts: seq<Edge>, start: int, k: nat)
    requires Stochastic(ts)
    ensures Mass(Walk(ts, start, k)) == 1.0
  {
    if k == 0 {
      assert [Particle(start, 1.0)][..0] == [];
    } else {
      WalkMass(ts, start, k - 1);
      AdvanceKeepsMass(ts, Walk(ts, start, k - 1));
    }
  }

  /** Probability mass is conserved: once `NormalizeOutEdges` has succeeded, the mass of all
      k-step walks from any node is exactly one, for every k. */
  lemma MassIsConserved(was: seq<Edge>, now: seq<Edge>, start: int, k: nat)
    requires AllWritten(ExactArithmetic(), was, now)
    requires forall s | IsSource(was, s) :: Scalable(ExactArithmetic(), was, s)
    ensures Mass(Walk(now, start, k)) == 1.0
  {
    NormalisedIsStochastic(was, now);
    WalkMass(now, start, k);
  }

  // ---------------------------------------------------------------- walks as probabilities

  ghost predicate AllNonNegative(ps: seq<Particle>) {
    forall i | 0 <= i < |ps| :: ps[i].mass >= 0.0
  }

  /** Shares that make up a probability distribution. */
  ghost predicate Distribution(ps: seq<Particle>) {
    AllNonNegative(ps) && Mass(ps) == 1.0
  }

  /** No two weights of the source differ in sign. */
  ghost predicate OneSign(ts: seq<Edge>, source: int) {
    NonNegative(OutValues(ts, source)) || NonPositive(OutValues(ts, source))
  }

  lemma {:induction false} BranchAt(edges: seq<Edge>, mass: real, i: nat)
    requires i < |edges|
    ensures |Branch(edges, mass)| == |edges|
    ensures Branch(edges, mass)[i] == Particle(edges[i].target, mass * ValueOf(edges[i].probability))
  {
    var last := |edges| - 1;
    BranchLength(edges[..last], mass);
    if i < last {
      BranchAt(edges[..last], mass, i);
    }
  }

  lemma {:induction false} BranchLength(edges: seq<Edge>, mass: real)
    ensures |Branch(edges, mass)| == |edges|
  {
    if edges != [] {
      BranchLength(edges[..|edges| - 1], mass);
    }
  }

  /** Shares of a non-negative mass have the signs of the probabilities. */
  lemma BranchSigns(ts: seq<Edge>, source: int, mass: real)
    requires mass > 0.0
    ensures AllNonNegative(Branch(OutEdges(ts, source), mass)) <==> NonNegative(OutValues(ts, source))
  {
    var edges := OutEdges(ts, source);
    BranchLength(edges, mass);
    hide OutEdges, Branch;
    forall i | 0 <= i < |edges|
      ensures Branch(edges, mass)[i].mass >= 0.0 <==> OutValues(ts, source)[i] >= 0.0
    {
      BranchAt(edges, mass, i);
      ProductSign(mass, OutValues(ts, source)[i]);
    }
  }

  lemma ProductSign(a: real, b: real)
    requires a > 0.0
    ensures a * b >= 0.0 <==> b >= 0.0
  {
    if b < 0.0 {
      assert a * -b > 0.0;
    }
  }

  lemma {:induction false} NoShares(edges: seq<Edge>)
    ensures AllNonNegative(Branch(edges, 0.0))
  {
    BranchLength(edges, 0.0);
    forall i | 0 <= i < |edges| ensures Branch(edges, 0.0)[i].mass >= 0.0 {
      BranchAt(edges, 0.0, i);
    }
  }

  lemma SpreadNonNegative(ts: seq<Edge>, p: Particle)
    requires forall s | IsSource(ts, s) :: NonNegative(OutValues(ts, s))
    requires p.mass >= 0.0
    ensures AllNonNegative(Spread(ts, p))
  {
    NoEdgesNoSource(ts, p.node);
    hide Branch, OutEdges, NonNegative;
    if OutEdges(ts, p.node) != [] {
      if p.mass > 0.0 {
        BranchSigns(ts, p.node, p.mass);
      } else {
        NoShares(OutEdges(ts, p.node));
      }
    }
  }

  lemma {:induction false} AdvanceNonNegative(ts: seq<Edge>, ps: seq<Particle>)
    requires forall s | IsSource(ts, s) :: NonNegative(OutValues(ts, s))
    requires AllNonNegative(ps)
    ensures AllNonNegative(Advance(ts, ps))
  {
    if ps != [] {
      AdvanceNonNegative(ts, ps[..|ps| - 1]);
      SpreadNonNegative(ts, ps[|ps| - 1]);
    }
  }

  lemma {:induction false} WalkNonNegative(ts: seq<Edge>, start: int, k: nat)
    requires forall s | IsSource(ts, s) :: NonNegative(OutValues(ts, s))
    ensures AllNonNegative(Walk(ts, start, k))
  {
    if k > 0 {
      WalkNonNegative(ts, start, k - 1);
      AdvanceNonNegative(ts, Walk(ts, start, k - 1));
    }
  }

  lemma OneStepWalk(ts: seq<Edge>, source: int)
    requires IsSource(ts, source)
    ensures Walk(ts, source, 1) == Branch(OutEdges(ts, source), 1.0)
  {
    NoEdgesNoSource(ts, source);
    var p := Particle(source, 1.0);
    assert Walk(ts, source, 0) == [p];
    assert [p][..0] == [];
    assert Advance(ts, [p]) == Spread(ts, p);
  }

  /** Dividing by their sum makes the weights of a source non-negative exactly when no two
      of them differ in sign. */
  lemma SignsOfSource(was: seq<Edge>, now: seq<Edge>, source: int)
    requires AllWritten(ExactArithmetic(), was, now)
    requires Scalable(ExactArithmetic(), was, source)
    ensures NonNegative(OutValues(now, source)) <==> OneSign(was, source)
  {
    OutEdgesRescaled(ExactArithmetic(), was, now, source);
    hide *;
    SourceTotal(was, source);
    var total := RealSum(OutValues(was, source));
    QuotientsOfTotal(was, now, source, total);
    SignOfSum(OutValues(was, source));
    QuotientSigns(OutValues(was, source), total, OutValues(now, source));
    SignsMatch(was, source, total);
  }

  lemma SignsMatch(ts: seq<Edge>, source: int, total: real)
    requires total != 0.0
    requires NonNegative(OutValues(ts, source)) ==> total >= 0.0
    requires NonPositive(OutValues(ts, source)) ==> total <= 0.0
    ensures (if total > 0.0 then NonNegative(OutValues(ts, source)) else NonPositive(OutValues(ts, source)))
       <==> OneSign(ts, source)
  {
    hide OutValues, NonNegative, NonPositive;
  }

  /** Conservation is about signed mass. All walks are probability distributions if and only
      if no source mixes weights of different signs. */
  lemma WalksAreDistributionsExactly(was: seq<Edge>, now: seq<Edge>)
    requires AllWritten(ExactArithmetic(), was, now)
    requires forall s | IsSource(was, s) :: Scalable(ExactArithmetic(), was, s)
    ensures (forall start, k: nat :: Distribution(Walk(now, start, k)))
       <==> (forall s | IsSource(was, s) :: OneSign(was, s))
  {
    forall s | IsSource(was, s) || IsSource(now, s)
      ensures IsSource(was, s) && IsSource(now, s) && (NonNegative(OutValues(now, s)) <==> OneSign(was, s))
    {
      OutEdgesRescaled(ExactArithmetic(), was, now, s);
      SignsOfSource(was, now, s);
    }
    hide IsSource, OneSign, Walk, Branch, OutEdges, Scalable, NonNegative, ExactArithmetic, AllNonNegative, Mass;
    if forall s | IsSource(was, s) :: OneSign(was, s) {
      forall start, k: nat ensures Distribution(Walk(now, start, k)) {
        WalkNonNegative(now, start, k);
        MassIsConserved(was, now, start, k);
      }
    }
    if s :| IsSource(was, s) && !OneSign(was, s) {
      OneStepWalk(now, s);
      BranchSigns(now, s, 1.0);
      assert !Distribution(Walk(now, s, 1));
    }
  }

  // ---------------------------------------------------------------- sums that are only near one

  /** Every source's out-edges are non-negative and sum to one within eps. */
  ghost predicate NearlyStochastic(ts: seq<Edge>, eps: real) {
    forall s | IsSource(ts, s) ::
      NonNegative(OutValues(ts, s)) && 1.0 - eps <= RealSum(OutValues(ts, s)) <= 1.0 + eps
  }

  /** What a node does to the mass that reaches it. */
  lemma SpreadFactor(ts: seq<Edge>, p: Particle, eps: real) returns (factor: real)
    requires NearlyStochastic(ts, eps) && eps >= 0.0
    ensures 1.0 - eps <= factor <= 1.0 + eps && Mass(Spread(ts, p)) == Product(p.mass, factor)
  {
    SpreadMass(ts, p);
    ProductOfOne(p.mass);
    hide Mass, Spread, RealSum, OutValues, NonNegative;
    factor := if IsSource(ts, p.node) then RealSum(OutValues(ts, p.node)) else 1.0;
  }

  lemma SpreadNearMass(ts: seq<Edge>, p: Particle, eps: real)
    requires NearlyStochastic(ts, eps) && eps >= 0.0 && p.mass >= 0.0
    ensures Product(p.mass, 1.0 - eps) <= Mass(Spread(ts, p)) <= Product(p.mass, 1.0 + eps)
  {
    hide *;
    var factor := SpreadFactor(ts, p, eps);
    Between(p.mass, 1.0 - eps, factor, 1.0 + eps);
  }

  lemma MassSnoc(ps: seq<Particle>)
    requires ps != []
    ensures Mass(ps) == Mass(ps[..|ps| - 1]) + ps[|ps| - 1].mass
  {
  }

  lemma AdvanceSnoc(ts: seq<Edge>, ps: seq<Particle>)
    requires ps != []
    ensures Mass(Advance(ts, ps)) == Mass(Advance(ts, ps[..|ps| - 1])) + Mass(Spread(ts, ps[|ps| - 1]))
  {
    MassAppend(Advance(ts, ps[..|ps| - 1]), Spread(ts, ps[|ps| - 1]));
    hide Mass, Spread;
  }

  lemma {:induction false} AdvanceNearMass(ts: seq<Edge>, ps: seq<Particle>, eps: real)
    requires NearlyStochastic(ts, eps) && eps >= 0.0 && AllNonNegative(ps)
    ensures Product(Mass(ps), 1.0 - eps) <= Mass(Advance(ts, ps)) <= Product(Mass(ps), 1.0 + eps)
  {
    if ps == [] {
      hide NearlyStochastic, AllNonNegative;
      assert Mass(ps) == 0.0 && Mass(Advance(ts, ps)) == 0.0;
    } else {
      var before, p := ps[..|ps| - 1], ps[|ps| - 1];
      assert AllNonNegative(before) && p.mass >= 0.0;
      hide *;
      AdvanceNearMass(ts, before, eps);
      SpreadNearMass(ts, p, eps);
      MassSnoc(ps);
      AdvanceSnoc(ts, ps);
      Distribute(Mass(before), p.mass, 1.0 - eps);
      Distribute(Mass(before), p.mass, 1.0 + eps);
    }
  }

  lemma PowerStep(lo: real, m: real, hi: real, next: real, eps: real)
    requires lo <= m <= hi && 0.0 <= eps <= 1.0
    requires Product(m, 1.0 - eps) <= next <= Product(m, 1.0 + eps)
    ensures Product(lo, 1.0 - eps) <= next <= Product(hi, 1.0 + eps)
  {
    hide *;
    Between(1.0 - eps, lo, m, hi);
    Between(1.0 + eps, lo, m, hi);
  }

  lemma WalkNext(ts: seq<Edge>, start: int, k: nat)
    requires k > 0
    ensures Walk(ts, start, k) == Advance(ts, Walk(ts, start, k - 1))
  {
    hide Advance;
  }

  lemma WalkStart(ts: seq<Edge>, start: int)
    ensures Mass(Walk(ts, start, 0)) == 1.0
  {
    assert [Particle(start, 1.0)][..0] == [];
  }

  lemma NearlyIsNonNegative(ts: seq<Edge>, eps: real)
    requires NearlyStochastic(ts, eps)
    ensures forall s | IsSource(ts, s) :: NonNegative(OutValues(ts, s))
  {
  }

  /** Deviations do not accumulate faster than step by step: if every source is within eps of
      one, the mass of all k-step walks lies between (1 - eps)^k and (1 + eps)^k. */
  lemma {:induction false} WalkMassBound(ts: seq<Edge>, start: int, k: nat, eps: real)
    requires NearlyStochastic(ts, eps) && 0.0 <= eps <= 1.0
    ensures Power(1.0 - eps, k) <= Mass(Walk(ts, start, k)) <= Power(1.0 + eps, k)
  {
    hide *;
    if k == 0 {
      WalkStart(ts, start);
      NoPower(1.0 - eps);
      NoPower(1.0 + eps);
    } else {
      WalkMassBound(ts, start, k - 1, eps);
      NearlyIsNonNegative(ts, eps);
      WalkNonNegative(ts, start, k - 1);
      WalkNext(ts, start, k);
      PowerNext(1.0 - eps, k);
      PowerNext(1.0 + eps, k);
      var before := Walk(ts, start, k - 1);
      AdvanceNearMass(ts, before, eps);
      PowerStep(Power(1.0 - eps, k - 1), Mass(before), Power(1.0 + eps, k - 1), Mass(Advance(ts, before)), eps);
    }
  }
}
