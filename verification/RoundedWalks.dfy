/** The in-place normalisation with every operation rounded, and the walks on its result. */
module RoundedWalks {
  import opened Wrappers
  import opened Ordering
  import opened Reals
  import opened Weights
  import opened Rounding
  import opened RoundoffBounds
  import opened PolicyGraph
  import opened PathMeasure

  type RealEdge = Transition<real>

  /** The edge as a walk sees it. */
  function ToEdge(t: RealEdge): Edge {
    var discount := if t.discount.Some? then Some(Finite(t.discount.value)) else None;
    Transition(t.source, t.target, Finite(t.probability), discount)
  }

  function AsEdges(ts: seq<RealEdge>): seq<Edge> {
    Map(ts, ToEdge)
  }

  /** The probabilities of a source's out-edges, in declaration order. */
  function Outgoing(ts: seq<RealEdge>, source: int): seq<real> {
    Map(OutEdges(ts, source), Probability)
  }

  // ---------------------------------------------------------------- one source

  lemma OutValuesAre(ts: seq<RealEdge>, source: int)
    ensures OutValues(AsEdges(ts), source) == Outgoing(ts, source)
  {
    SelectMap(ts, SourceKey, ToEdge, SourceKey, Key(source, 0));
    assert OutEdges(AsEdges(ts), source) == Map(OutEdges(ts, source), ToEdge);
    hide OutEdges, AsEdges;
  }

  lemma SourcesAre(ts: seq<RealEdge>, source: int)
    ensures IsSource(AsEdges(ts), source) <==> IsSource(ts, source)
  {
    var edges := AsEdges(ts);
    if IsSource(ts, source) {
      var t :| t in ts && t.source == source;
      var i :| 0 <= i < |ts| && ts[i] == t;
      assert edges[i] in edges;
    }
    if IsSource(edges, source) {
      var e :| e in edges && e.source == source;
      var i :| 0 <= i < |edges| && edges[i] == e;
      assert ts[i] in ts;
    }
  }

  function DivideBy(m: Arithmetic<real>, total: real): real -> real {
    (w: real) => m.div(w, total)
  }

  /** What a source's edges end up with, in declaration order. */
  lemma OutgoingRescaled(m: Arithmetic<real>, was: seq<RealEdge>, now: seq<RealEdge>, source: int)
    requires AllWritten(m, was, now)
    ensures Outgoing(now, source) == Map(Outgoing(was, source), DivideBy(m, Total(m, CanonicalWeights(was, source))))
    ensures IsSource(now, source) <==> IsSource(was, source)
  {
    OutEdgesRescaled(m, was, now, source);
    var edges := OutEdges(was, source);
    assert forall t | t in edges :: SourceKey(t) == Key(source, 0);
    hide OutEdges, CanonicalWeights, Total, IsSource, AllWritten;
    forall i | 0 <= i < |edges|
      ensures Outgoing(now, source)[i] == m.div(edges[i].probability, Total(m, CanonicalWeights(was, source)))
    {
      assert edges[i] in edges;
    }
  }

  /** Up to order these are the scaled canonical weights, so they add up to the same. */
  lemma OutgoingSum(m: Arithmetic<real>, was: seq<RealEdge>, now: seq<RealEdge>, source: int)
    requires AllWritten(m, was, now)
    ensures RealSum(Outgoing(now, source)) == RealSum(Scaled(m, CanonicalWeights(was, source)))
  {
    OutgoingRescaled(m, was, now, source);
    CanonicalPermutes(was, source);
    var weights, declared := CanonicalWeights(was, source), Outgoing(was, source);
    ScaledAt(m, weights);
    var f := DivideBy(m, Total(m, weights));
    assert Scaled(m, weights) == Map(weights, f);
    hide CanonicalWeights, Scaled, Total, DivideBy, RealSum, Outgoing, AllWritten;
    assert Permuted(weights, declared) by {
      assert declared == Map(OutEdges(was, source), Probability) by { OutgoingIs(was, source); }
    }
    MapPermuted(weights, declared, f);
    RealSumPermuted(Map(weights, f), Map(declared, f));
  }

  lemma OutgoingIs(ts: seq<RealEdge>, source: int)
    ensures Outgoing(ts, source) == Map(OutEdges(ts, source), Probability)
  {
  }

  ghost predicate AllRepresentable(s: seq<real>, representable: real -> bool) {
    forall i | 0 <= i < |s| :: representable(s[i])
  }

  /** The weights of the source are representable, have one sign, and are few enough for the
      roundoff; the deviation they allow is at most eps. */
  ghost predicate WellScaled(ts: seq<RealEdge>, source: int, representable: real -> bool, u: real, eps: real) {
    var weights := Outgoing(ts, source);
    && AllRepresentable(weights, representable)
    && (NonNegative(weights) || NonPositive(weights))
    && TotalFactor(|weights|, u) < 1.0 && Deviation(|weights|, u) <= eps
  }

  lemma CanonicalLike(ts: seq<RealEdge>, source: int, representable: real -> bool)
    ensures var weights, declared := CanonicalWeights(ts, source), Outgoing(ts, source);
            && |weights| == |declared|
            && (AllRepresentable(declared, representable) <==> AllRepresentable(weights, representable))
            && (NonNegative(declared) <==> NonNegative(weights))
            && (NonPositive(declared) <==> NonPositive(weights))
  {
    CanonicalPermutes(ts, source);
    var weights, declared := CanonicalWeights(ts, source), Outgoing(ts, source);
    PermutedLength(weights, declared);
    hide CanonicalWeights, Outgoing;
    Members(weights, declared, representable);
    Members(declared, weights, representable);
  }

  lemma Occurs<T>(a: seq<T>, b: seq<T>, i: nat) returns (j: nat)
    requires Permuted(a, b) && i < |b|
    ensures j < |a| && a[j] == b[i]
  {
    PermutedLength(a, b);
    assert b[i] in b;
    j :| 0 <= j < |a| && a[j] == b[i];
  }

  lemma Members(a: seq<real>, b: seq<real>, representable: real -> bool)
    requires Permuted(a, b)
    ensures AllRepresentable(a, representable) ==> AllRepresentable(b, representable)
    ensures NonNegative(a) ==> NonNegative(b)
    ensures NonPositive(a) ==> NonPositive(b)
  {
    forall i | 0 <= i < |b| ensures exists j :: 0 <= j < |a| && a[j] == b[i] {
      var j := Occurs(a, b, i);
    }
  }

  lemma ScalableTotal(m: Arithmetic<real>, representable: real -> bool, u: real, ts: seq<RealEdge>, source: int)
    requires Accurate(m, representable, u) && Scalable(m, ts, source)
    ensures Total(m, CanonicalWeights(ts, source)) != 0.0
  {
    UnitRoundoff(m, representable, u);
    hide CanonicalWeights, Total, Accurate;
  }

  /** A quotient of numbers of one sign does not become negative by rounding. */
  lemma QuotientStays(w: real, total: real, q: real, u: real)
    requires total != 0.0 && 0.0 <= u <= 1.0 && Abs(q - w / total) <= Product(u, Abs(w / total))
    requires if total > 0.0 then w >= 0.0 else w <= 0.0
    ensures q >= 0.0
  {
    var exact := w / total;
    QuotientTimes(w, total);
    assert exact >= 0.0 by {
      if exact < 0.0 {
        if total > 0.0 {
          Positive(-exact, total);
        } else {
          Positive(-exact, -total);
        }
        SignsOfProduct(exact, total);
        assert false;
      }
    }
    hide Product;
    Between(Abs(exact), 0.0, u, 1.0);
    ProductOfOne(Abs(exact));
  }

  lemma SignsOfProduct(a: real, b: real)
    ensures Product(a, b) == -Product(-a, b) == Product(-a, -b)
  {
  }

  /** After normalisation the out-edges of a well scaled source are non-negative and sum to
      one within eps. */
  lemma SourceNearOne(m: Arithmetic<real>, representable: real -> bool, u: real, eps: real,
                      was: seq<RealEdge>, now: seq<RealEdge>, source: int)
    requires Accurate(m, representable, u) && u <= 1.0 && AllWritten(m, was, now)
    requires Scalable(m, was, source) && WellScaled(was, source, representable, u, eps)
    ensures NonNegative(Outgoing(now, source))
    ensures 1.0 - eps <= RealSum(Outgoing(now, source)) <= 1.0 + eps
  {
    hide *;
    var weights := CanonicalWeights(was, source);
    CanonicalWellScaled(was, source, representable, u, eps);
    ScalableTotal(m, representable, u, was, source);
    RepresentableEach(weights, representable);
    NormalisedNearOne(m, representable, weights, u);
    OutgoingSum(m, was, now, source);
    AbsBetween(RealSum(Outgoing(now, source)), eps);
    SignOfSum(weights);
    OutgoingSigns(m, representable, u, was, now, source);
  }

  lemma RepresentableEach(s: seq<real>, representable: real -> bool)
    requires AllRepresentable(s, representable)
    ensures forall i | 0 <= i < |s| :: representable(s[i])
  {
  }

  lemma CanonicalWellScaled(ts: seq<RealEdge>, source: int, representable: real -> bool, u: real, eps: real)
    requires WellScaled(ts, source, representable, u, eps)
    ensures var weights := CanonicalWeights(ts, source);
            && AllRepresentable(weights, representable)
            && (NonNegative(weights) || NonPositive(weights))
            && TotalFactor(|weights|, u) < 1.0 && Deviation(|weights|, u) <= eps
  {
    CanonicalLike(ts, source, representable);
    hide CanonicalWeights, Outgoing, AllRepresentable, NonNegative, NonPositive, TotalFactor, Deviation;
  }

  lemma AbsBetween(x: real, eps: real)
    requires Abs(x - 1.0) <= eps
    ensures 1.0 - eps <= x <= 1.0 + eps
  {
  }

  lemma OutgoingSigns(m: Arithmetic<real>, representable: real -> bool, u: real,
                      was: seq<RealEdge>, now: seq<RealEdge>, source: int)
    requires Accurate(m, representable, u) && u <= 1.0 && AllWritten(m, was, now)
    requires var weights, total := CanonicalWeights(was, source), Total(m, CanonicalWeights(was, source));
             && AllRepresentable(weights, representable) && total != 0.0
             && if total > 0.0 then NonNegative(weights) else NonPositive(weights)
    ensures NonNegative(Outgoing(now, source))
  {
    hide *;
    var weights, total := CanonicalWeights(was, source), Total(m, CanonicalWeights(was, source));
    CanonicalLike(was, source, representable);
    OutgoingRescaled(m, was, now, source);
    UnitRoundoff(m, representable, u);
    RepresentableEach(weights, representable);
    TotalIsRepresentable(m, representable, weights, u);
    QuotientsStay(m, representable, u, Outgoing(was, source), total);
  }

  lemma QuotientsStay(m: Arithmetic<real>, representable: real -> bool, u: real, weights: seq<real>, total: real)
    requires Accurate(m, representable, u) && u <= 1.0 && total != 0.0 && representable(total)
    requires AllRepresentable(weights, representable)
    requires if total > 0.0 then NonNegative(weights) else NonPositive(weights)
    ensures NonNegative(Map(weights, DivideBy(m, total)))
  {
    UnitRoundoff(m, representable, u);
    hide Accurate, Abs, Product, CorrectlyRounded;
    forall i | 0 <= i < |weights| ensures m.div(weights[i], total) >= 0.0 {
      AccurateAt(m, representable, u, weights[i], total);
      QuotientStays(weights[i], total, m.div(weights[i], total), u);
    }
  }

  // ---------------------------------------------------------------- all walks

  lemma NormalisedIsNearlyStochastic(m: Arithmetic<real>, representable: real -> bool, u: real, eps: real,
                                     was: seq<RealEdge>, now: seq<RealEdge>)
    requires Accurate(m, representable, u) && u <= 1.0 && AllWritten(m, was, now)
    requires forall s | IsSource(was, s) :: Scalable(m, was, s) && WellScaled(was, s, representable, u, eps)
    ensures NearlyStochastic(AsEdges(now), eps)
  {
    hide Accurate, Scalable, WellScaled, AllWritten, AsEdges, Outgoing, OutValues, IsSource, RealSum, NonNegative;
    forall s | IsSource(AsEdges(now), s)
      ensures NonNegative(OutValues(AsEdges(now), s)) && 1.0 - eps <= RealSum(OutValues(AsEdges(now), s)) <= 1.0 + eps
    {
      SourcesAre(now, s);
      OutgoingRescaled(m, was, now, s);
      SourceNearOne(m, representable, u, eps, was, now, s);
      OutValuesAre(now, s);
    }
  }

  /** What downstream code relies on, with every operation rounded: once `NormalizeOutEdges`
      has succeeded on a graph whose sources are well scaled, all shares of all walks are
      non-negative, and those of the k-step walks from any node add up to between
      (1 - eps)^k and (1 + eps)^k. */
  lemma RoundedWalkMass(m: Arithmetic<real>, representable: real -> bool, u: real, eps: real,
                        was: seq<RealEdge>, now: seq<RealEdge>, start: int, k: nat)
    requires Accurate(m, representable, u) && u <= 1.0 && 0.0 <= eps <= 1.0 && AllWritten(m, was, now)
    requires forall s | IsSource(was, s) :: Scalable(m, was, s) && WellScaled(was, s, representable, u, eps)
    ensures AllNonNegative(Walk(AsEdges(now), start, k))
    ensures Power(1.0 - eps, k) <= Mass(Walk(AsEdges(now), start, k)) <= Power(1.0 + eps, k)
  {
    hide *;
    NormalisedIsNearlyStochastic(m, representable, u, eps, was, now);
    NearlyIsNonNegative(AsEdges(now), eps);
    WalkNonNegative(AsEdges(now), start, k);
    WalkMassBound(AsEdges(now), start, k, eps);
  }
}
