/** `normalize_weights`: scaling a weight vector by its Neumaier-compensated sum.

    The routine is written over an arbitrary arithmetic, so what is proved about it without
    further assumptions holds for machine floating point as well. Exact arithmetic over the
    reals, with one non-finite value, is an instance. */
module Weights {
  import opened Wrappers
  import opened Ordering
  import opened Reals

  /** The operations the routine uses. Nothing is assumed about them: addition need be
      neither associative nor commutative, and every operation may round. */
  datatype Arithmetic<!F> = Arithmetic(
    zero: F,
    add: (F, F) -> F,
    sub: (F, F) -> F,
    div: (F, F) -> F,
    /** `a.abs() >= b.abs()` */
    dominates: (F, F) -> bool,
    isFinite: F -> bool,
    isZero: F -> bool)

  datatype WeightSumError = ZeroSum | NonFiniteSum

  datatype Accumulator<F> = Accumulator(sum: F, compensation: F)

  /** One round of the compensated sum. */
  function Accumulate<F>(m: Arithmetic<F>, acc: Accumulator<F>, w: F): Accumulator<F> {
    var t := m.add(acc.sum, w);
    var residual :=
      if m.dominates(acc.sum, w) then m.add(m.sub(acc.sum, t), w)
      else m.add(m.sub(w, t), acc.sum);
    Accumulator(t, m.add(acc.compensation, residual))
  }

  function Sums<F>(m: Arithmetic<F>, weights: seq<F>): Accumulator<F> {
    if weights == [] then Accumulator(m.zero, m.zero) else
    Accumulate(m, Sums(m, weights[..|weights| - 1]), weights[|weights| - 1])
  }

  function Total<F>(m: Arithmetic<F>, weights: seq<F>): F {
    m.add(Sums(m, weights).sum, Sums(m, weights).compensation)
  }

  function Unscalable<F>(m: Arithmetic<F>, weights: seq<F>): Option<WeightSumError> {
    if !m.isFinite(Total(m, weights)) then Some(NonFiniteSum)
    else if m.isZero(Total(m, weights)) then Some(ZeroSum)
    else None
  }

  function Scaled<F>(m: Arithmetic<F>, weights: seq<F>): seq<F> {
    seq(|weights|, i requires 0 <= i < |weights| => m.div(weights[i], Total(m, weights)))
  }

  /** Scale in place, or leave the slice alone and say why its sum cannot be scaled to one. */
  method NormalizeWeights<F>(m: Arithmetic<F>, weights: array<F>) returns (r: Option<WeightSumError>)
    modifies weights
    ensures r == Unscalable(m, old(weights[..]))
    ensures weights[..] == if r.None? then Scaled(m, old(weights[..])) else old(weights[..])
  {
    ghost var was := weights[..];
    var sum, compensation := m.zero, m.zero;
    for i := 0 to weights.Length
      invariant weights[..] == was
      invariant Accumulator(sum, compensation) == Sums(m, was[..i])
    {
      assert was[..i + 1][..i] == was[..i];
      var w := weights[i];
      var t := m.add(sum, w);
      if m.dominates(sum, w) {
        compensation := m.add(compensation, m.add(m.sub(sum, t), w));
      } else {
        compensation := m.add(compensation, m.add(m.sub(w, t), sum));
      }
      sum := t;
    }
    assert was[..weights.Length] == was;
    var total := m.add(sum, compensation);
    if !m.isFinite(total) {
      return Some(NonFiniteSum);
    }
    if m.isZero(total) {
      return Some(ZeroSum);
    }
    for i := 0 to weights.Length
      invariant forall k | 0 <= k < i :: weights[k] == m.div(was[k], total)
      invariant forall k | i <= k < weights.Length :: weights[k] == was[k]
    {
      weights[i] := m.div(weights[i], total);
    }
    return None;
  }

  // ---------------------------------------------------------------- exact arithmetic

  /** Exact arithmetic; every non-finite outcome is the one value `NonFinite`. */
  datatype Exact = Finite(value: real) | NonFinite

  function ExactAdd(a: Exact, b: Exact): Exact {
    if a.Finite? && b.Finite? then Finite(a.value + b.value) else NonFinite
  }

  function ExactSub(a: Exact, b: Exact): Exact {
    if a.Finite? && b.Finite? then Finite(a.value - b.value) else NonFinite
  }

  function ExactDiv(a: Exact, b: Exact): Exact {
    if a.Finite? && b.Finite? && b.value != 0.0 then Finite(a.value / b.value) else NonFinite
  }

  predicate ExactDominates(a: Exact, b: Exact) {
    a.Finite? && b.Finite? && Abs(a.value) >= Abs(b.value)
  }

  predicate ExactIsFinite(a: Exact) {
    a.Finite?
  }

  predicate ExactIsZero(a: Exact) {
    a == Finite(0.0)
  }

  function ExactArithmetic(): Arithmetic<Exact> {
    Arithmetic(Finite(0.0), ExactAdd, ExactSub, ExactDiv, ExactDominates, ExactIsFinite, ExactIsZero)
  }

  predicate AllFinite(weights: seq<Exact>) {
    forall i | 0 <= i < |weights| :: weights[i].Finite?
  }

  function ValueOf(w: Exact): real {
    if w.Finite? then w.value else 0.0
  }

  function Values(weights: seq<Exact>): (r: seq<real>)
    ensures |r| == |weights|
  {
    Map(weights, ValueOf)
  }

  function ExactSum(weights: seq<Exact>): Exact {
    if AllFinite(weights) then Finite(RealSum(Values(weights))) else NonFinite
  }

  /** One round, with the arithmetic filled in. */
  lemma ExactAccumulate(acc: Accumulator<Exact>, w: Exact)
    ensures var t := ExactAdd(acc.sum, w);
            Accumulate(ExactArithmetic(), acc, w) == Accumulator(t, ExactAdd(acc.compensation,
              if ExactDominates(acc.sum, w) then ExactAdd(ExactSub(acc.sum, t), w)
              else ExactAdd(ExactSub(w, t), acc.sum)))
  {
    hide ExactAdd, ExactSub, ExactDominates;
  }

  lemma ExactRound(a: real, v: real)
    ensures Accumulate(ExactArithmetic(), Accumulator(Finite(a), Finite(0.0)), Finite(v))
         == Accumulator(Finite(a + v), Finite(0.0))
  {
    hide Accumulate, ExactArithmetic, Abs;
    ExactAccumulate(Accumulator(Finite(a), Finite(0.0)), Finite(v));
  }

  lemma NonFiniteRound(acc: Accumulator<Exact>, w: Exact)
    requires w == NonFinite || acc == Accumulator(NonFinite, NonFinite)
    ensures Accumulate(ExactArithmetic(), acc, w) == Accumulator(NonFinite, NonFinite)
  {
    hide Accumulate, ExactArithmetic, Abs;
    ExactAccumulate(acc, w);
  }

  lemma ExactSumLast(weights: seq<Exact>)
    requires weights != []
    ensures var before, w := weights[..|weights| - 1], weights[|weights| - 1];
            ExactSum(weights) == ExactAdd(ExactSum(before), w)
  {
    var before := weights[..|weights| - 1];
    assert Values(weights)[..|before|] == Values(before);
  }

  lemma {:induction false} ExactSums(weights: seq<Exact>)
    ensures Sums(ExactArithmetic(), weights)
         == if AllFinite(weights) then Accumulator(ExactSum(weights), Finite(0.0))
            else Accumulator(NonFinite, NonFinite)
  {
    if weights != [] {
      var before, w := weights[..|weights| - 1], weights[|weights| - 1];
      ExactSums(before);
      ExactSumLast(weights);
      hide Accumulate, RealSum, ExactArithmetic;
      if AllFinite(before) && w.Finite? {
        ExactRound(ExactSum(before).value, w.value);
      } else {
        NonFiniteRound(Sums(ExactArithmetic(), before), w);
      }
    }
  }

  lemma ExactTotal(weights: seq<Exact>)
    ensures Total(ExactArithmetic(), weights) == ExactSum(weights)
  {
    ExactSums(weights);
  }

  /** The scaled weights over exact arithmetic. */
  lemma ScaledValues(weights: seq<Exact>)
    requires AllFinite(weights) && RealSum(Values(weights)) != 0.0
    ensures var once := Scaled(ExactArithmetic(), weights);
            AllFinite(once) && forall i | 0 <= i < |weights| ::
              Values(once)[i] == Values(weights)[i] / RealSum(Values(weights))
  {
    ExactTotal(weights);
    hide Total, Sums, RealSum;
    var m, once := ExactArithmetic(), Scaled(ExactArithmetic(), weights);
    forall i | 0 <= i < |weights| ensures once[i] == Finite(weights[i].value / RealSum(Values(weights))) {
      assert once[i] == m.div(weights[i], Total(m, weights));
      assert m.div(weights[i], Total(m, weights)) == ExactDiv(weights[i], Total(m, weights));
    }
  }

  lemma UnscalableExactly(weights: seq<Exact>)
    ensures Unscalable(ExactArithmetic(), weights) ==
            if !AllFinite(weights) then Some(NonFiniteSum)
            else if RealSum(Values(weights)) == 0.0 then Some(ZeroSum) else None
  {
    ExactTotal(weights);
  }

  /** Over exact arithmetic: the vector is refused as non-finite exactly when some weight is,
      as zero exactly when the finite weights cancel, and otherwise scaled so that it sums
      to exactly one. */
  lemma ScalesToOne(weights: seq<Exact>)
    ensures var m := ExactArithmetic();
            && (Unscalable(m, weights) == Some(NonFiniteSum) <==> !AllFinite(weights))
            && (Unscalable(m, weights) == Some(ZeroSum) <==> AllFinite(weights) && RealSum(Values(weights)) == 0.0)
            && (Unscalable(m, weights).None? ==>
                  AllFinite(Scaled(m, weights)) && RealSum(Values(Scaled(m, weights))) == 1.0)
  {
    UnscalableExactly(weights);
    if AllFinite(weights) && RealSum(Values(weights)) != 0.0 {
      ScaledSumsToOne(weights);
    }
  }

  lemma ScaledSumsToOne(weights: seq<Exact>)
    requires AllFinite(weights) && RealSum(Values(weights)) != 0.0
    ensures var once := Scaled(ExactArithmetic(), weights);
            AllFinite(once) && RealSum(Values(once)) == 1.0
  {
    hide RealSum;
    var total := RealSum(Values(weights));
    ScaledValues(weights);
    SumOfQuotients(Values(weights), total, Values(Scaled(ExactArithmetic(), weights)));
    assert total / total == 1.0;
  }

  /** Scaling a scaled vector changes nothing. */
  lemma ScalingIsIdempotent(weights: seq<Exact>)
    requires Unscalable(ExactArithmetic(), weights).None?
    ensures var once := Scaled(ExactArithmetic(), weights);
            Unscalable(ExactArithmetic(), once).None? && Scaled(ExactArithmetic(), once) == once
  {
    var once := Scaled(ExactArithmetic(), weights);
    UnscalableExactly(weights);
    ScaledSumsToOne(weights);
    UnscalableExactly(once);
    ScaledValues(once);
    var twice := Scaled(ExactArithmetic(), once);
    hide Scaled, Unscalable, ExactArithmetic, RealSum;
    forall i | 0 <= i < |once| ensures twice[i] == once[i] {
      assert Values(twice)[i] == Values(once)[i];
    }
  }

  /** The documented demand for a positive sum is not checked: any non-zero sum is accepted,
      and the scaled weights are all non-negative exactly when no two weights differ in sign. */
  lemma SignsAfterScaling(weights: seq<Exact>)
    requires AllFinite(weights) && RealSum(Values(weights)) != 0.0
    ensures var once := Scaled(ExactArithmetic(), weights);
            AllFinite(once) &&
            (NonNegative(Values(once)) <==> NonNegative(Values(weights)) || NonPositive(Values(weights)))
  {
    ScaledValues(weights);
    SignOfSum(Values(weights));
    QuotientSigns(Values(weights), RealSum(Values(weights)), Values(Scaled(ExactArithmetic(), weights)));
  }

  /** A unit sum does not imply it: these weights sum to one, are accepted as they are, and
      one of them is negative. */
  lemma NegativeWeightSurvives()
    ensures var m, weights := ExactArithmetic(), [Finite(2.0), Finite(-1.0)];
            Unscalable(m, weights).None? && Scaled(m, weights) == weights
  {
    var weights := [Finite(2.0), Finite(-1.0)];
    assert Values(weights) == [2.0, -1.0];
    assert [2.0, -1.0][..1] == [2.0] && [2.0][..0] == [];
    assert RealSum([2.0, -1.0]) == 1.0;
    UnscalableExactly(weights);
    ScaledValues(weights);
    hide Scaled;
    var once := Scaled(ExactArithmetic(), weights);
    forall i | 0 <= i < 2 ensures once[i] == weights[i] {
      assert Values(once)[i] == Values(weights)[i] / 1.0;
    }
  }
}
