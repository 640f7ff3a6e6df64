/** What `normalize_weights` computes when every operation rounds: why the branch on magnitude
    matters, how exact the compensated sum is, and how far from one the scaled weights sum. */
module Rounding {
  import opened Reals
  import opened Weights

  /** One round over the reals in which the running sum was rounded to `t`, whatever that is,
      and the update of the compensation erred by `e`. The residual is the one the code
      computes: by magnitude, from the operand that dominates. */
  function Round(acc: Accumulator<real>, w: real, t: real, e: real): Accumulator<real> {
    var residual := if Abs(acc.sum) >= Abs(w) then (acc.sum - t) + w else (w - t) + acc.sum;
    Accumulator(t, acc.compensation + residual + e)
  }

  function Rounds(weights: seq<real>, ts: seq<real>, errors: seq<real>): Accumulator<real>
    requires |ts| == |errors| == |weights|
  {
    if weights == [] then Accumulator(0.0, 0.0) else
    var last := |weights| - 1;
    Round(Rounds(weights[..last], ts[..last], errors[..last]), weights[last], ts[last], errors[last])
  }

  /** Whatever the running sum was rounded to in each round, sum plus compensation is the
      exact sum of the weights plus the errors of the compensation updates. */
  lemma {:induction false} RoundsBalance(weights: seq<real>, ts: seq<real>, errors: seq<real>)
    requires |ts| == |errors| == |weights|
    ensures var acc := Rounds(weights, ts, errors);
            acc.sum + acc.compensation == RealSum(weights) + RealSum(errors)
  {
    if weights != [] {
      var last := |weights| - 1;
      RoundsBalance(weights[..last], ts[..last], errors[..last]);
    }
  }

  /** With exact residuals nothing is lost, whatever the running sum was rounded to. */
  lemma ExactResidualsLoseNothing(weights: seq<real>, ts: seq<real>)
    requires |ts| == |weights|
    ensures var acc := Rounds(weights, ts, Zeros(|weights|));
            acc.sum + acc.compensation == RealSum(weights)
  {
    hide *;
    RoundsBalance(weights, ts, Zeros(|weights|));
    NothingAdded(Zeros(|weights|));
  }

  /** If no compensation update errs by more than e, n weights are summed to within n * e,
      however the running sum was rounded. */
  lemma AnyRoundingIsCompensated(weights: seq<real>, ts: seq<real>, errors: seq<real>, e: real)
    requires |ts| == |errors| == |weights|
    requires forall i | 0 <= i < |weights| :: Abs(errors[i]) <= e
    ensures var acc := Rounds(weights, ts, errors);
            Abs(acc.sum + acc.compensation - RealSum(weights)) <= |weights| as real * e
  {
    hide *;
    RoundsBalance(weights, ts, errors);
    SumBound(errors, e);
    var acc := Rounds(weights, ts, errors);
    assert acc.sum + acc.compensation - RealSum(weights) == RealSum(errors);
  }

  // ---------------------------------------------------------------- why the branch

  /** What correctly rounded arithmetic without overflow provides, for the set of numbers
      that are representable: results stay in the set, a result in the set is exact, and the
      fast two-sum law. The law says that what the rounded sum lost, and its distance from
      the operand of larger magnitude, are representable. It speaks of that operand only. */
  ghost predicate CorrectlyRounded(m: Arithmetic<real>, representable: real -> bool) {
    && m.zero == 0.0 && representable(0.0)
    && (forall a, b :: m.dominates(a, b) <==> Abs(a) >= Abs(b))
    && (forall a, b | representable(a) && representable(b) :: RoundsSum(m, representable, a, b))
    && (forall a, b | representable(a) && representable(b) :: RoundsDifference(m, representable, a, b))
  }

  ghost predicate RoundsSum(m: Arithmetic<real>, representable: real -> bool, a: real, b: real) {
    var t := m.add(a, b);
    && representable(t) && t == m.add(b, a)
    && (representable(a + b) ==> t == a + b)
    && (Abs(a) >= Abs(b) ==> representable(a - t) && representable((a + b) - t))
  }

  ghost predicate RoundsDifference(m: Arithmetic<real>, representable: real -> bool, a: real, b: real) {
    representable(a - b) ==> m.sub(a, b) == a - b
  }

  lemma RoundsAt(m: Arithmetic<real>, representable: real -> bool, a: real, b: real)
    requires CorrectlyRounded(m, representable) && representable(a) && representable(b)
    ensures RoundsSum(m, representable, a, b) && RoundsDifference(m, representable, a, b)
  {
    hide RoundsSum, RoundsDifference, Abs;
  }

  lemma FastTwoSum(m: Arithmetic<real>, representable: real -> bool, large: real, small: real)
    requires CorrectlyRounded(m, representable) && representable(large) && representable(small)
    requires Abs(large) >= Abs(small)
    ensures var t := m.add(large, small);
            && t == m.add(small, large) && representable(t)
            && representable((large + small) - t)
            && m.add(m.sub(large, t), small) == (large + small) - t
  {
    hide Abs, CorrectlyRounded;
    var t := m.add(large, small);
    RoundsAt(m, representable, large, small);
    RoundsAt(m, representable, large, t);
    var d := m.sub(large, t);
    assert d == large - t;
    RoundsAt(m, representable, d, small);
    assert d + small == (large + small) - t;
  }

  lemma DominatesByMagnitude(m: Arithmetic<real>, representable: real -> bool, a: real, b: real)
    requires CorrectlyRounded(m, representable)
    ensures m.dominates(a, b) <==> Abs(a) >= Abs(b)
  {
  }

  /** An arithmetic that loses a whole operand whenever the exact sum is not representable:
      the operand of larger magnitude absorbs the other. */
  function Absorbing(representable: real -> bool): Arithmetic<real> {
    Arithmetic(0.0,
      (a: real, b: real) => if representable(a + b) then a + b else if Abs(a) >= Abs(b) then a else b,
      (a: real, b: real) => a - b,
      (a: real, b: real) => if b != 0.0 then a / b else 0.0,
      (a: real, b: real) => Abs(a) >= Abs(b),
      (a: real) => true,
      (a: real) => a == 0.0)
  }

  lemma AbsorbingRounds(representable: real -> bool, a: real, b: real)
    requires representable(0.0) && representable(a) && representable(b) && representable(-b)
    ensures RoundsSum(Absorbing(representable), representable, a, b)
  {
    var t := Absorbing(representable).add(a, b);
    if representable(a + b) {
      assert t == a + b && b + a == a + b;
      assert a - t == -b && (a + b) - t == 0.0;
    } else if Abs(a) >= Abs(b) {
      assert a != -b;
      assert t == a;
      assert a - t == 0.0 && (a + b) - t == b;
    } else {
      assert t == b;
    }
  }

  /** So what correct rounding is taken to mean leaves room for gross losses: any set of
      numbers with zero and all negatives will do. */
  lemma AbsorbingIsCorrectlyRounded(representable: real -> bool)
    requires representable(0.0) && forall a | representable(a) :: representable(-a)
    ensures CorrectlyRounded(Absorbing(representable), representable)
  {
    var m := Absorbing(representable);
    forall a, b ensures m.dominates(a, b) <==> Abs(a) >= Abs(b) {
    }
    forall a, b | representable(a) && representable(b)
      ensures RoundsSum(m, representable, a, b) && RoundsDifference(m, representable, a, b)
    {
      AbsorbingRounds(representable, a, b);
    }
    hide RoundsSum, RoundsDifference;
  }

  /** What rounding the running sum loses of it. */
  function Lost(m: Arithmetic<real>, acc: Accumulator<real>, w: real): real {
    (acc.sum + w) - m.add(acc.sum, w)
  }

  /** Choosing the branch by magnitude makes the residual exact. */
  lemma ResidualIsExact(m: Arithmetic<real>, representable: real -> bool, acc: Accumulator<real>, w: real)
    requires CorrectlyRounded(m, representable) && representable(acc.sum) && representable(w)
    ensures var next := Accumulate(m, acc, w);
            && representable(next.sum)
            && representable(Lost(m, acc, w))
            && next.compensation == m.add(acc.compensation, Lost(m, acc, w))
  {
    hide CorrectlyRounded;
    DominatesByMagnitude(m, representable, acc.sum, w);
    if m.dominates(acc.sum, w) {
      FastTwoSum(m, representable, acc.sum, w);
    } else {
      FastTwoSum(m, representable, w, acc.sum);
    }
  }

  lemma {:induction false} SumsAreRepresentable(m: Arithmetic<real>, representable: real -> bool, weights: seq<real>)
    requires CorrectlyRounded(m, representable)
    requires forall i | 0 <= i < |weights| :: representable(weights[i])
    ensures representable(Sums(m, weights).sum)
  {
    if weights != [] {
      hide CorrectlyRounded, Accumulate;
      var before := weights[..|weights| - 1];
      SumsAreRepresentable(m, representable, before);
      ResidualIsExact(m, representable, Sums(m, before), weights[|weights| - 1]);
    } else {
      assert Sums(m, weights) == Accumulator(m.zero, m.zero);
    }
  }

  /** What adding the loss of a round to the compensation errs by. */
  function UpdateError(m: Arithmetic<real>, acc: Accumulator<real>, w: real): real {
    m.add(acc.compensation, Lost(m, acc, w)) - (acc.compensation + Lost(m, acc, w))
  }

  function UpdateErrors(m: Arithmetic<real>, weights: seq<real>): (r: seq<real>)
    ensures |r| == |weights|
  {
    seq(|weights|, i requires 0 <= i < |weights| => UpdateError(m, Sums(m, weights[..i]), weights[i]))
  }

  function RunningSums(m: Arithmetic<real>, weights: seq<real>): (r: seq<real>)
    ensures |r| == |weights|
  {
    seq(|weights|, i requires 0 <= i < |weights| => m.add(Sums(m, weights[..i]).sum, weights[i]))
  }

  lemma AccumulateIsRound(m: Arithmetic<real>, representable: real -> bool, acc: Accumulator<real>, w: real)
    requires CorrectlyRounded(m, representable) && representable(acc.sum) && representable(w)
    ensures Accumulate(m, acc, w) == Round(acc, w, m.add(acc.sum, w), UpdateError(m, acc, w))
  {
    ResidualIsExact(m, representable, acc, w);
    hide CorrectlyRounded;
    var t := m.add(acc.sum, w);
    assert Accumulate(m, acc, w).sum == t;
    assert (if Abs(acc.sum) >= Abs(w) then (acc.sum - t) + w else (w - t) + acc.sum) == Lost(m, acc, w);
  }

  lemma HistoriesSnoc(m: Arithmetic<real>, weights: seq<real>)
    requires weights != []
    ensures var last, acc := |weights| - 1, Sums(m, weights[..|weights| - 1]);
            && RunningSums(m, weights) == RunningSums(m, weights[..last]) + [m.add(acc.sum, weights[last])]
            && UpdateErrors(m, weights) == UpdateErrors(m, weights[..last]) + [UpdateError(m, acc, weights[last])]
  {
    hide Sums, UpdateError;
    var last := |weights| - 1;
    forall i | 0 <= i < last ensures weights[..last][..i] == weights[..i] {
    }
  }

  lemma RoundsSnoc(weights: seq<real>, ts: seq<real>, errors: seq<real>, w: real, t: real, e: real)
    requires |ts| == |errors| == |weights|
    ensures Rounds(weights + [w], ts + [t], errors + [e]) == Round(Rounds(weights, ts, errors), w, t, e)
  {
    var n := |weights|;
    assert (weights + [w])[..n] == weights && (ts + [t])[..n] == ts && (errors + [e])[..n] == errors;
  }

  /** In correctly rounded arithmetic the code's loop is such a sequence of rounds: only the
      running sum is rounded away, and each update errs only by adding a loss that is itself
      known exactly. */
  lemma {:induction false} SumsAreRounds(m: Arithmetic<real>, representable: real -> bool, weights: seq<real>)
    requires CorrectlyRounded(m, representable)
    requires forall i | 0 <= i < |weights| :: representable(weights[i])
    ensures Sums(m, weights) == Rounds(weights, RunningSums(m, weights), UpdateErrors(m, weights))
  {
    assert m.zero == 0.0;
    if weights != [] {
      var last := |weights| - 1;
      assert Sums(m, weights) == Accumulate(m, Sums(m, weights[..last]), weights[last]);
      hide *;
      SumsAreRounds(m, representable, weights[..last]);
      SumsAreRepresentable(m, representable, weights[..last]);
      AccumulateIsRound(m, representable, Sums(m, weights[..last]), weights[last]);
      HistoriesSnoc(m, weights);
      RoundsSnoc(weights[..last], RunningSums(m, weights[..last]), UpdateErrors(m, weights[..last]),
                 weights[last], m.add(Sums(m, weights[..last]).sum, weights[last]),
                 UpdateError(m, Sums(m, weights[..last]), weights[last]));
      assert weights == weights[..last] + [weights[last]];
    }
  }

  /** So if those errors stay below e the sum of n weights is known to within n * e, however
      much the running sum itself has lost. */
  lemma NeumaierBound(m: Arithmetic<real>, representable: real -> bool, weights: seq<real>, e: real)
    requires CorrectlyRounded(m, representable)
    requires forall i | 0 <= i < |weights| :: representable(weights[i])
    requires forall i | 0 <= i < |weights| :: Abs(UpdateErrors(m, weights)[i]) <= e
    ensures var acc := Sums(m, weights);
            Abs(acc.sum + acc.compensation - RealSum(weights)) <= |weights| as real * e
  {
    hide *;
    SumsAreRounds(m, representable, weights);
    AnyRoundingIsCompensated(weights, RunningSums(m, weights), UpdateErrors(m, weights), e);
  }

  // ---------------------------------------------------------------- how far from one

  lemma NeumaierCap(m: Arithmetic<real>, representable: real -> bool, weights: seq<real>, e: real)
    requires CorrectlyRounded(m, representable)
    requires forall i | 0 <= i < |weights| :: representable(weights[i])
    requires forall i | 0 <= i < |weights| :: Abs(UpdateErrors(m, weights)[i]) <= e
    ensures var acc := Sums(m, weights);
            Abs(acc.sum + acc.compensation - RealSum(weights)) <= Product(|weights| as real, e)
  {
    hide CorrectlyRounded, Sums, RealSum, Abs, UpdateErrors;
    NeumaierBound(m, representable, weights, e);
  }

  lemma TotalGap(total: real, known: real, sum: real, f: real, d: real)
    requires Abs(total - known) <= f && Abs(known - sum) <= d
    ensures Abs(total - sum) <= d + f
  {
  }

  /** The quotients of the magnitudes are the magnitudes of the quotients. */
  lemma ScaledSumNear(weights: seq<real>, total: real, scaled: seq<real>, u: real)
    requires total != 0.0 && |scaled| == |weights|
    requires forall i | 0 <= i < |weights| :: Abs(scaled[i] - weights[i] / total) <= Product(u, Abs(weights[i] / total))
    ensures Abs(RealSum(scaled) - RealSum(weights) / total) <= Product(u, RealSum(Magnitudes(weights)) / Abs(total))
  {
    var exact, magnitudes := Quotients(weights, total), Quotients(Magnitudes(weights), Abs(total));
    forall i | 0 <= i < |weights| ensures magnitudes[i] == Abs(weights[i] / total) {
      AbsQuotient(weights[i], total);
    }
    assert Abs(total) != 0.0;
    hide *;
    SumOfQuotients(weights, total, exact);
    SumOfQuotients(Magnitudes(weights), Abs(total), magnitudes);
    SumGap(scaled, exact, Multiples(magnitudes, u));
    SumOfMultiples(magnitudes, u);
  }

  lemma DistanceFromOne(sum: real, magnitude: real, total: real, scaled: real, d: real, u: real)
    requires total != 0.0 && Abs(total - sum) <= d
    requires Abs(scaled - sum / total) <= Product(u, magnitude / Abs(total))
    ensures Product(Abs(scaled - 1.0), Abs(total)) <= d + Product(u, magnitude)
  {
    var gap := scaled - sum / total;
    assert Abs(total) > 0.0;
    assert Product(scaled - 1.0, total) == Product(gap, total) + (sum - total) by {
      QuotientTimes(sum, total);
      Distribute(gap, sum / total - 1.0, total);
      Distribute(sum / total, -1.0, total);
    }
    AbsProduct(scaled - 1.0, total);
    AbsProduct(gap, total);
    Between(Abs(total), Abs(gap), Abs(gap), Product(u, magnitude / Abs(total)));
    assert Product(Product(u, magnitude / Abs(total)), Abs(total)) == Product(u, magnitude) by {
      Associate(u, magnitude / Abs(total), Abs(total));
      QuotientTimes(magnitude, Abs(total));
    }
  }

  lemma TimesProduct(x: real, y: real)
    ensures x * y == Product(x, y)
  {
  }

  lemma ScaledAt<F>(m: Arithmetic<F>, weights: seq<F>)
    ensures |Scaled(m, weights)| == |weights|
    ensures forall i | 0 <= i < |weights| :: Scaled(m, weights)[i] == m.div(weights[i], Total(m, weights))
  {
    hide Total;
  }

  lemma ScaledNearOneGiven(m: Arithmetic<real>, weights: seq<real>, d: real, u: real)
    requires Total(m, weights) != 0.0 && Abs(Total(m, weights) - RealSum(weights)) <= d
    requires forall i | 0 <= i < |weights| ::
               Abs(m.div(weights[i], Total(m, weights)) - weights[i] / Total(m, weights))
                 <= Product(u, Abs(weights[i] / Total(m, weights)))
    ensures Product(Abs(RealSum(Scaled(m, weights)) - 1.0), Abs(Total(m, weights)))
         <= d + Product(u, RealSum(Magnitudes(weights)))
  {
    hide *;
    var total, scaled := Total(m, weights), Scaled(m, weights);
    ScaledAt(m, weights);
    ScaledSumNear(weights, total, scaled, u);
    DistanceFromOne(RealSum(weights), RealSum(Magnitudes(weights)), total, RealSum(scaled), d, u);
  }

  /** With every operation rounded, and for weights of any sign: the distance of the scaled
      sum from one, times the magnitude of the total, is at most n * e + f + u * the sum of
      the magnitudes, where e bounds the errors of the compensation updates, f that of the
      final addition, and u the relative error of a division. */
  lemma ScaledNearOne(m: Arithmetic<real>, representable: real -> bool, weights: seq<real>, e: real, f: real, u: real)
    requires CorrectlyRounded(m, representable)
    requires forall i | 0 <= i < |weights| :: representable(weights[i])
    requires forall i | 0 <= i < |weights| :: Abs(UpdateErrors(m, weights)[i]) <= e
    requires var acc := Sums(m, weights); Abs(Total(m, weights) - (acc.sum + acc.compensation)) <= f
    requires Total(m, weights) != 0.0
    requires forall i | 0 <= i < |weights| ::
               Abs(m.div(weights[i], Total(m, weights)) - weights[i] / Total(m, weights))
                 <= Product(u, Abs(weights[i] / Total(m, weights)))
    ensures Product(Abs(RealSum(Scaled(m, weights)) - 1.0), Abs(Total(m, weights)))
         <= Product(|weights| as real, e) + f + Product(u, RealSum(Magnitudes(weights)))
  {
    hide *;
    var acc := Sums(m, weights);
    NeumaierCap(m, representable, weights, e);
    TotalGap(Total(m, weights), acc.sum + acc.compensation, RealSum(weights), f, Product(|weights| as real, e));
    ScaledNearOneGiven(m, weights, Product(|weights| as real, e) + f, u);
  }

  /** For non-negative weights the magnitudes add up to the sum. */
  lemma ScaledNearOneNonNegative(m: Arithmetic<real>, representable: real -> bool, weights: seq<real>,
                                 e: real, f: real, u: real)
    requires CorrectlyRounded(m, representable) && NonNegative(weights)
    requires forall i | 0 <= i < |weights| :: representable(weights[i])
    requires forall i | 0 <= i < |weights| :: Abs(UpdateErrors(m, weights)[i]) <= e
    requires var acc := Sums(m, weights); Abs(Total(m, weights) - (acc.sum + acc.compensation)) <= f
    requires Total(m, weights) != 0.0
    requires forall i | 0 <= i < |weights| ::
               Abs(m.div(weights[i], Total(m, weights)) - weights[i] / Total(m, weights))
                 <= Product(u, Abs(weights[i] / Total(m, weights)))
    ensures Product(Abs(RealSum(Scaled(m, weights)) - 1.0), Abs(Total(m, weights)))
         <= Product(|weights| as real, e) + f + Product(u, RealSum(weights))
  {
    hide *;
    ScaledNearOne(m, representable, weights, e, f, u);
    MagnitudesAddUp(weights);
  }

  lemma MagnitudesAddUp(s: seq<real>)
    ensures NonNegative(s) ==> RealSum(Magnitudes(s)) == RealSum(s)
  {
    hide *;
    MagnitudeOfSum(s);
    SignOfSum(s);
    NonNegativeAbs(RealSum(s));
  }

  lemma NonNegativeAbs(x: real)
    ensures x >= 0.0 ==> Abs(x) == x
  {
  }

  // ---------------------------------------------------------------- rounded divisions alone

  predicate Anything(x: real) {
    true
  }

  /** Quotients of representable numbers have relative error at most u. */
  ghost predicate DividesWithin(m: Arithmetic<real>, representable: real -> bool, u: real) {
    forall a, b | representable(a) && representable(b) && b != 0.0 ::
      Abs(m.div(a, b) - a / b) <= Product(u, Abs(a / b))
  }

  lemma AddsExactly(m: Arithmetic<real>, a: real, b: real)
    requires CorrectlyRounded(m, Anything)
    ensures m.add(a, b) == a + b
  {
    RoundsAt(m, Anything, a, b);
  }

  lemma NoUpdateErrors(m: Arithmetic<real>, weights: seq<real>, i: nat)
    requires CorrectlyRounded(m, Anything) && i < |weights|
    ensures UpdateErrors(m, weights)[i] == 0.0
  {
    hide CorrectlyRounded;
    var acc := Sums(m, weights[..i]);
    AddsExactly(m, acc.compensation, Lost(m, acc, weights[i]));
  }

  /** If nothing but the divisions rounds, the compensated total is the sum. */
  lemma ExactTotalOf(m: Arithmetic<real>, weights: seq<real>)
    requires CorrectlyRounded(m, Anything)
    ensures Total(m, weights) == RealSum(weights)
  {
    hide CorrectlyRounded, UpdateErrors, Sums, RealSum;
    var acc := Sums(m, weights);
    forall i | 0 <= i < |weights| ensures Abs(UpdateErrors(m, weights)[i]) <= 0.0 {
      NoUpdateErrors(m, weights, i);
    }
    NeumaierBound(m, Anything, weights, 0.0);
    AddsExactly(m, acc.sum, acc.compensation);
  }

  /** An arithmetic in which only divisions round, each upwards by the full relative error. */
  function Skewed(u: real): Arithmetic<real> {
    Arithmetic(0.0,
      (a: real, b: real) => a + b,
      (a: real, b: real) => a - b,
      (a: real, b: real) => if b == 0.0 then 0.0 else a / b + Product(u, Abs(a / b)),
      (a: real, b: real) => Abs(a) >= Abs(b),
      (a: real) => true,
      (a: real) => a == 0.0)
  }

  lemma SkewedIsRounded(u: real)
    requires u >= 0.0
    ensures CorrectlyRounded(Skewed(u), Anything) && DividesWithin(Skewed(u), Anything, u)
  {
    var m := Skewed(u);
    forall a, b ensures m.dominates(a, b) <==> Abs(a) >= Abs(b) {
    }
    forall a, b ensures RoundsSum(m, Anything, a, b) && RoundsDifference(m, Anything, a, b) {
    }
    hide RoundsSum, RoundsDifference;
    forall a, b: real | b != 0.0 ensures Abs(m.div(a, b) - a / b) <= Product(u, Abs(a / b)) {
      SkewedGap(u, a / b);
      assert m.div(a, b) == a / b + Product(u, Abs(a / b));
    }
  }

  lemma SkewedGap(u: real, q: real)
    requires u >= 0.0
    ensures Abs((q + Product(u, Abs(q))) - q) <= Product(u, Abs(q))
  {
    ProductNonNegative(u, Abs(q));
    hide Product;
  }

  lemma {:induction false} SumOfSums(a: seq<real>, b: seq<real>, both: seq<real>)
    requires |a| == |b| == |both| && forall i | 0 <= i < |a| :: both[i] == a[i] + b[i]
    ensures RealSum(both) == RealSum(a) + RealSum(b)
  {
    if a != [] {
      var last := |a| - 1;
      SumOfSums(a[..last], b[..last], both[..last]);
    }
  }

  lemma SkewedQuotients(weights: seq<real>, total: real, scaled: seq<real>, u: real)
    requires total != 0.0 && |scaled| == |weights|
    requires forall i | 0 <= i < |weights| :: scaled[i] == weights[i] / total + Product(u, Abs(weights[i] / total))
    ensures RealSum(scaled) == RealSum(weights) / total + Product(u, RealSum(Magnitudes(weights)) / Abs(total))
  {
    var exact, magnitudes := Quotients(weights, total), Quotients(Magnitudes(weights), Abs(total));
    forall i | 0 <= i < |weights| ensures magnitudes[i] == Abs(weights[i] / total) {
      AbsQuotient(weights[i], total);
    }
    assert Abs(total) != 0.0;
    hide *;
    SumOfQuotients(weights, total, exact);
    SumOfQuotients(Magnitudes(weights), Abs(total), magnitudes);
    SumOfMultiples(magnitudes, u);
    SumOfSums(exact, Multiples(magnitudes, u), scaled);
  }

  /** There the scaled weights sum to one plus u times the magnitudes over the total. */
  lemma SkewedSum(weights: seq<real>, u: real)
    requires u >= 0.0 && RealSum(weights) != 0.0
    ensures RealSum(Scaled(Skewed(u), weights))
         == 1.0 + Product(u, RealSum(Magnitudes(weights)) / Abs(RealSum(weights)))
  {
    var m, total := Skewed(u), RealSum(weights);
    SkewedIsRounded(u);
    ExactTotalOf(m, weights);
    ScaledAt(m, weights);
    assert forall w :: m.div(w, total) == w / total + Product(u, Abs(w / total));
    hide *;
    SkewedQuotients(weights, total, Scaled(m, weights), u);
    Divides(1.0, total, total);
    ProductOfOne(total);
  }

  lemma RatioAboveOne(a: real, b: real)
    requires b > 0.0
    ensures a > b ==> a / b > 1.0
    ensures a == b ==> a / b == 1.0
  {
    QuotientTimes(a, b);
    if a > b && a / b <= 1.0 {
      Between(b, a / b, a / b, 1.0);
      ProductOfOne(b);
      assert false;
    }
  }

  lemma CancelFactor(x: real, u: real, b: real)
    requires b > 0.0 && x * b <= u * b
    ensures x <= u
  {
  }

  /** Rounded divisions keep the scaled sum within u of one, however they round, if and only
      if no two weights differ in sign. */
  lemma WithinRoundingExactly(weights: seq<real>, u: real)
    requires u > 0.0 && RealSum(weights) != 0.0
    ensures (forall m: Arithmetic<real> | CorrectlyRounded(m, Anything) && DividesWithin(m, Anything, u) ::
               Abs(RealSum(Scaled(m, weights)) - 1.0) <= u)
       <==> NonNegative(weights) || NonPositive(weights)
  {
    var sum, magnitude := RealSum(weights), RealSum(Magnitudes(weights));
    assert Abs(sum) > 0.0;
    MagnitudeOfSum(weights);
    hide NonNegative, NonPositive, RealSum, Magnitudes, CorrectlyRounded, DividesWithin, Scaled;
    if NonNegative(weights) || NonPositive(weights) {
      forall m: Arithmetic<real> | CorrectlyRounded(m, Anything) && DividesWithin(m, Anything, u)
        ensures Abs(RealSum(Scaled(m, weights)) - 1.0) <= u
      {
        OneSignIsWithin(m, weights, u);
      }
    } else {
      SkewedIsRounded(u);
      SkewedSum(weights, u);
      RatioAboveOne(magnitude, Abs(sum));
      AboveOne(u, magnitude / Abs(sum));
      assert Abs(RealSum(Scaled(Skewed(u), weights)) - 1.0) > u;
    }
  }

  lemma AboveOne(u: real, ratio: real)
    requires u > 0.0 && ratio > 1.0
    ensures Product(u, ratio) > u
  {
    assert u * (ratio - 1.0) > 0.0;
  }

  lemma OneSignIsWithin(m: Arithmetic<real>, weights: seq<real>, u: real)
    requires CorrectlyRounded(m, Anything) && DividesWithin(m, Anything, u) && RealSum(weights) != 0.0
    requires RealSum(Magnitudes(weights)) == Abs(RealSum(weights))
    ensures Abs(RealSum(Scaled(m, weights)) - 1.0) <= u
  {
    hide *;
    ExactTotalOf(m, weights);
    AllDivideWithin(m, weights, RealSum(weights), u);
    ScaledNearOneGiven(m, weights, 0.0, u);
    NotZero(RealSum(weights));
    FinishWithin(Abs(RealSum(Scaled(m, weights)) - 1.0), u, Abs(RealSum(weights)));
  }

  lemma AllDivideWithin(m: Arithmetic<real>, weights: seq<real>, total: real, u: real)
    requires DividesWithin(m, Anything, u) && total != 0.0
    ensures forall i | 0 <= i < |weights| ::
              Abs(m.div(weights[i], total) - weights[i] / total) <= Product(u, Abs(weights[i] / total))
    ensures Abs(total - total) <= 0.0
  {
    hide Product;
  }

  lemma NotZero(x: real)
    ensures x != 0.0 <==> Abs(x) > 0.0
  {
  }

  lemma FinishWithin(x: real, u: real, b: real)
    requires b > 0.0 && Product(x, b) <= 0.0 + Product(u, b)
    ensures x <= u
  {
    CancelFactor(x, u, b);
  }
}
