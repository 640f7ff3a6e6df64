/** With a unit roundoff u for every addition and division: how exact the compensated sum is
    and how far from one the scaled weights sum, in terms of the weights alone. */
module RoundoffBounds {
  import opened Reals
  import opened Weights
  import opened Rounding

  // ---------------------------------------------------------------- bounds from the weights alone

  /** Sums of representable numbers have relative error at most u. */
  ghost predicate AddsWithin(m: Arithmetic<real>, representable: real -> bool, u: real) {
    forall a, b | representable(a) && representable(b) :: Abs(m.add(a, b) - (a + b)) <= Product(u, Abs(a + b))
  }

  /** Correctly rounded arithmetic with unit roundoff u. */
  ghost predicate Accurate(m: Arithmetic<real>, representable: real -> bool, u: real) {
    && u >= 0.0
    && CorrectlyRounded(m, representable)
    && AddsWithin(m, representable, u)
    && DividesWithin(m, representable, u)
    && (forall a :: m.isZero(a) <==> a == 0.0)
  }

  lemma SkewedIsAccurate(u: real)
    requires u >= 0.0
    ensures Accurate(Skewed(u), Anything, u)
  {
    SkewedIsRounded(u);
    var m := Skewed(u);
    hide CorrectlyRounded, DividesWithin;
    forall a, b ensures Abs(m.add(a, b) - (a + b)) <= Product(u, Abs(a + b)) {
      ProductNonNegative(u, Abs(a + b));
      assert m.add(a, b) == a + b;
    }
    forall a ensures m.isZero(a) <==> a == 0.0 {
    }
  }

  /** How large the running sum of n weights can become. */
  function SumCap(n: nat, u: real, magnitude: real): real {
    Product(Power(1.0 + u, n), magnitude)
  }

  /** And how large its compensation. */
  function CompensationCap(n: nat, u: real, magnitude: real): real {
    Product(Product(n as real, u), SumCap(n, u, magnitude))
  }

  lemma RoundedWithin(u: real, a: real, t: real, cap: real)
    requires u >= 0.0 && Abs(a) <= cap && Abs(t - a) <= Product(u, Abs(a))
    ensures Abs(t) <= Product(cap, 1.0 + u) && Abs(a - t) <= Product(u, cap)
  {
    hide Product;
    Monotone(u, Abs(a), cap);
    Distribute(1.0, u, cap);
    ProductOfOne(cap);
    Commute(u, cap);
  }

  lemma SumCapNext(n: nat, u: real, magnitude: real)
    ensures Product(SumCap(n, u, magnitude), 1.0 + u) == SumCap(n + 1, u, magnitude)
  {
    PowerNext(1.0 + u, n + 1);
    var g, x := Power(1.0 + u, n), 1.0 + u;
    hide Power, Product;
    Associate(g, magnitude, x);
    Commute(magnitude, x);
    Associate(g, x, magnitude);
  }

  lemma SumWithinCap(n: nat, u: real, magnitude: real, sum: real, w: real)
    requires u >= 0.0 && Abs(sum) <= SumCap(n, u, magnitude)
    ensures Abs(sum + w) <= SumCap(n, u, magnitude + Abs(w))
  {
    var g := Power(1.0 + u, n);
    PowerAtLeastOne(1.0 + u, n);
    hide Power, Product;
    Distribute(magnitude, Abs(w), g);
    Between(Abs(w), 1.0, g, g);
    ProductOfOne(Abs(w));
  }

  lemma SumCapGrows(j: nat, k: nat, u: real, small: real, large: real)
    requires u >= 0.0 && j <= k && 0.0 <= small <= large
    ensures 0.0 <= SumCap(j, u, small) <= SumCap(k, u, large)
  {
    PowerGrows(1.0 + u, j, k);
    PowerAtLeastOne(1.0 + u, j);
    var g, h := Power(1.0 + u, j), Power(1.0 + u, k);
    hide Power, Product;
    ProductNonNegative(g, small);
    Monotone(g, small, large);
    Between(large, g, h, h);
  }

  lemma CompensationCapGrows(j: nat, k: nat, u: real, small: real, large: real)
    requires u >= 0.0 && j <= k && 0.0 <= small <= large
    ensures 0.0 <= CompensationCap(j, u, small) <= CompensationCap(k, u, large)
  {
    SumCapGrows(j, k, u, small, large);
    hide SumCap, Product;
    ProductNonNegative(j as real, u);
    Between(u, j as real, k as real, k as real);
    ProductNonNegative(Product(j as real, u), SumCap(j, u, small));
    Monotone(Product(j as real, u), SumCap(j, u, small), SumCap(k, u, large));
    Between(SumCap(k, u, large), Product(j as real, u), Product(k as real, u), Product(k as real, u));
  }

  /** Adding a loss of at most u * cap to a compensation of at most n * u * cap. */
  lemma CompensationWithinCap(n: nat, u: real, cap: real, compensation: real, loss: real)
    requires Abs(compensation) <= Product(Product(n as real, u), cap) && Abs(loss) <= Product(u, cap)
    ensures Abs(compensation + loss) <= Product(Product((n + 1) as real, u), cap)
  {
    hide Product;
    Distribute(n as real, 1.0, u);
    ProductOfOne(u);
    Distribute(Product(n as real, u), u, cap);
    assert (n + 1) as real == n as real + 1.0;
  }

  /** One round of the loop, in numbers: `t` is the rounded sum and `next` the rounded
      compensation. */
  lemma RoundCaps(n: nat, u: real, magnitude: real, acc: Accumulator<real>, w: real, t: real, next: real)
    requires u >= 0.0 && magnitude >= 0.0
    requires Abs(acc.sum) <= SumCap(n, u, magnitude)
    requires Abs(acc.compensation) <= CompensationCap(n, u, magnitude)
    requires Abs(t - (acc.sum + w)) <= Product(u, Abs(acc.sum + w))
    requires var known := acc.compensation + ((acc.sum + w) - t); Abs(next - known) <= Product(u, Abs(known))
    ensures var all := magnitude + Abs(w);
            && Abs(t) <= SumCap(n + 1, u, all)
            && Abs(next) <= CompensationCap(n + 1, u, all)
            && Abs(next - (acc.compensation + ((acc.sum + w) - t))) <= Product(u, CompensationCap(n + 1, u, all))
  {
    var all, loss := magnitude + Abs(w), (acc.sum + w) - t;
    var cap, wide := SumCap(n, u, all), Product((n + 1) as real, u);
    assert Abs(w) >= 0.0;
    assert CompensationCap(n, u, magnitude) == Product(Product(n as real, u), SumCap(n, u, magnitude));
    assert CompensationCap(n + 1, u, all) == Product(wide, SumCap(n + 1, u, all));
    hide *;
    SumWithinCap(n, u, magnitude, acc.sum, w);
    RoundedWithin(u, acc.sum + w, t, cap);
    SumCapNext(n, u, all);
    SumCapGrows(n, n, u, magnitude, all);
    ProductNonNegative(n as real, u);
    Monotone(Product(n as real, u), SumCap(n, u, magnitude), cap);
    CompensationWithinCap(n, u, cap, acc.compensation, loss);
    RoundedWithin(u, acc.compensation + loss, next, Product(wide, cap));
    Associate(wide, cap, 1.0 + u);
    SumCapGrows(n, n + 1, u, all, all);
    ProductNonNegative((n + 1) as real, u);
    Monotone(wide, cap, SumCap(n + 1, u, all));
    Monotone(u, Product(wide, cap), CompensationCap(n + 1, u, all));
    AbsFlip(acc.compensation + loss, next);
  }

  lemma AbsFlip(a: real, b: real)
    ensures Abs(a - b) == Abs(b - a)
  {
  }

  lemma AccurateAt(m: Arithmetic<real>, representable: real -> bool, u: real, a: real, b: real)
    requires Accurate(m, representable, u) && representable(a) && representable(b)
    ensures u >= 0.0 && CorrectlyRounded(m, representable) && m.zero == 0.0 && representable(0.0)
    ensures representable(m.add(a, b)) && Abs(m.add(a, b) - (a + b)) <= Product(u, Abs(a + b))
    ensures b != 0.0 ==> Abs(m.div(a, b) - a / b) <= Product(u, Abs(a / b))
  {
    RoundsAt(m, representable, a, b);
    hide Abs, Product;
  }

  ghost predicate Capped(acc: Accumulator<real>, representable: real -> bool, n: nat, u: real, magnitude: real) {
    && representable(acc.sum) && representable(acc.compensation)
    && Abs(acc.sum) <= SumCap(n, u, magnitude)
    && Abs(acc.compensation) <= CompensationCap(n, u, magnitude)
  }

  lemma AccumulateCapped(m: Arithmetic<real>, representable: real -> bool, acc: Accumulator<real>, w: real,
                         n: nat, u: real, magnitude: real)
    requires Accurate(m, representable, u) && representable(w) && magnitude >= 0.0
    requires Capped(acc, representable, n, u, magnitude)
    ensures Capped(Accumulate(m, acc, w), representable, n + 1, u, magnitude + Abs(w))
    ensures Abs(UpdateError(m, acc, w)) <= Product(u, CompensationCap(n + 1, u, magnitude + Abs(w)))
  {
    hide Accurate, CorrectlyRounded, SumCap, CompensationCap, Product, Abs, Accumulate;
    AccurateAt(m, representable, u, acc.sum, w);
    ResidualIsExact(m, representable, acc, w);
    AccurateAt(m, representable, u, acc.compensation, Lost(m, acc, w));
    RoundCaps(n, u, magnitude, acc, w, m.add(acc.sum, w), m.add(acc.compensation, Lost(m, acc, w)));
    AccumulatedSum(m, acc, w);
  }

  lemma AccumulatedSum(m: Arithmetic<real>, acc: Accumulator<real>, w: real)
    ensures Accumulate(m, acc, w).sum == m.add(acc.sum, w)
  {
  }

  lemma MagnitudesNonNegative(s: seq<real>)
    ensures RealSum(Magnitudes(s)) >= 0.0
  {
    SignedParts(s);
    hide RealSum;
  }

  lemma StartCapped(representable: real -> bool, u: real)
    requires representable(0.0)
    ensures Capped(Accumulator(0.0, 0.0), representable, 0, u, RealSum(Magnitudes([])))
  {
    assert RealSum(Magnitudes([])) == 0.0;
    assert SumCap(0, u, 0.0) == 0.0;
  }

  lemma {:induction false} SumsAreCapped(m: Arithmetic<real>, representable: real -> bool, weights: seq<real>, u: real)
    requires Accurate(m, representable, u)
    requires forall i | 0 <= i < |weights| :: representable(weights[i])
    ensures Capped(Sums(m, weights), representable, |weights|, u, RealSum(Magnitudes(weights)))
  {
    if weights == [] {
      assert Sums(m, weights) == Accumulator(m.zero, m.zero);
      assert m.zero == 0.0 && representable(0.0);
      hide *;
      StartCapped(representable, u);
    } else {
      var last := |weights| - 1;
      assert Sums(m, weights) == Accumulate(m, Sums(m, weights[..last]), weights[last]);
      hide *;
      SumsAreCapped(m, representable, weights[..last], u);
      MagnitudesNonNegative(weights[..last]);
      AccumulateCapped(m, representable, Sums(m, weights[..last]), weights[last],
                       last, u, RealSum(Magnitudes(weights[..last])));
      MagnitudesSnoc(weights);
    }
  }

  lemma MagnitudesPrefix(s: seq<real>, i: nat)
    requires i <= |s|
    ensures RealSum(Magnitudes(s[..i])) <= RealSum(Magnitudes(s))
    decreases |s|
  {
    if i < |s| {
      MagnitudesSnoc(s);
      assert s[..|s| - 1][..i] == s[..i];
      MagnitudesPrefix(s[..|s| - 1], i);
    } else {
      assert s[..i] == s;
    }
  }

  lemma UpdateErrorAt(m: Arithmetic<real>, weights: seq<real>, i: nat)
    requires i < |weights|
    ensures UpdateErrors(m, weights)[i] == UpdateError(m, Sums(m, weights[..i]), weights[i])
  {
    hide Sums, UpdateError;
  }

  lemma PrefixMagnitude(weights: seq<real>, i: nat)
    requires i < |weights|
    ensures 0.0 <= RealSum(Magnitudes(weights[..i])) + Abs(weights[i]) <= RealSum(Magnitudes(weights))
    ensures RealSum(Magnitudes(weights[..i])) >= 0.0
  {
    var upto := weights[..i + 1];
    assert upto[..i] == weights[..i] && upto[|upto| - 1] == weights[i];
    hide *;
    MagnitudesSnoc(upto);
    MagnitudesNonNegative(upto);
    MagnitudesNonNegative(weights[..i]);
    MagnitudesPrefix(weights, i + 1);
  }

  lemma UnitRoundoff(m: Arithmetic<real>, representable: real -> bool, u: real)
    requires Accurate(m, representable, u)
    ensures u >= 0.0 && CorrectlyRounded(m, representable) && forall a :: m.isZero(a) <==> a == 0.0
  {
  }

  /** Every update of the compensation errs at most by u times its cap. */
  lemma UpdateErrorsCapped(m: Arithmetic<real>, representable: real -> bool, weights: seq<real>, u: real, i: nat)
    requires Accurate(m, representable, u) && i < |weights|
    requires forall k | 0 <= k < |weights| :: representable(weights[k])
    ensures Abs(UpdateErrors(m, weights)[i])
         <= Product(u, CompensationCap(|weights|, u, RealSum(Magnitudes(weights))))
  {
    hide *;
    UnitRoundoff(m, representable, u);
    UpdateErrorAt(m, weights, i);
    PrefixMagnitude(weights, i);
    var part, all := RealSum(Magnitudes(weights[..i])) + Abs(weights[i]), RealSum(Magnitudes(weights));
    SumsAreCapped(m, representable, weights[..i], u);
    AccumulateCapped(m, representable, Sums(m, weights[..i]), weights[i], i, u, RealSum(Magnitudes(weights[..i])));
    CompensationCapGrows(i + 1, |weights|, u, part, all);
    Monotone(u, CompensationCap(i + 1, u, part), CompensationCap(|weights|, u, all));
  }

  /** Of second order in u: what the compensated sum of n weights loses, relative to the sum
      of their magnitudes. */
  function LossFactor(n: nat, u: real): real {
    Product(Product(n as real, n as real), Product(Product(u, u), Power(1.0 + u, n)))
  }

  lemma LossOfAll(n: nat, u: real, magnitude: real)
    ensures Product(n as real, Product(u, CompensationCap(n, u, magnitude))) == Product(LossFactor(n, u), magnitude)
  {
    RegroupFactors(n as real, u, Power(1.0 + u, n), magnitude);
    hide Power, Product;
  }

  lemma RegroupFactors(n: real, u: real, g: real, x: real)
    ensures Product(n, Product(u, Product(Product(n, u), Product(g, x))))
         == Product(Product(Product(n, n), Product(Product(u, u), g)), x)
  {
    var gx := g * x;
    assert (n * u) * gx == n * (u * gx);
    assert u * (n * (u * gx)) == n * (u * (u * gx));
    assert n * (n * (u * (u * gx))) == (n * n) * ((u * u) * gx);
    assert ((u * u) * g) * x == (u * u) * gx;
    assert ((n * n) * ((u * u) * g)) * x == (n * n) * (((u * u) * g) * x);
  }

  /** The compensated sum is exact up to second order, whatever the running sum has lost. */
  lemma CompensatedSumWithin(m: Arithmetic<real>, representable: real -> bool, weights: seq<real>, u: real)
    requires Accurate(m, representable, u)
    requires forall i | 0 <= i < |weights| :: representable(weights[i])
    ensures var acc := Sums(m, weights);
            Abs(acc.sum + acc.compensation - RealSum(weights))
              <= Product(LossFactor(|weights|, u), RealSum(Magnitudes(weights)))
  {
    hide *;
    UnitRoundoff(m, representable, u);
    var magnitude := RealSum(Magnitudes(weights));
    forall i | 0 <= i < |weights|
      ensures Abs(UpdateErrors(m, weights)[i]) <= Product(u, CompensationCap(|weights|, u, magnitude))
    {
      UpdateErrorsCapped(m, representable, weights, u, i);
    }
    NeumaierCap(m, representable, weights, Product(u, CompensationCap(|weights|, u, magnitude)));
    LossOfAll(|weights|, u, magnitude);
  }

  // ---------------------------------------------------------------- normalised weights

  /** How far the total can be from the sum, relative to the sum of the magnitudes: one
      rounding, and what the compensated sum loses. */
  function TotalFactor(n: nat, u: real): real {
    u + Product(1.0 + u, LossFactor(n, u))
  }

  lemma LossFactorNonNegative(n: nat, u: real)
    requires u >= 0.0
    ensures LossFactor(n, u) >= 0.0 && TotalFactor(n, u) >= u
  {
    PowerAtLeastOne(1.0 + u, n);
    hide Power, Product;
    ProductNonNegative(n as real, n as real);
    ProductNonNegative(u, u);
    ProductNonNegative(Product(u, u), Power(1.0 + u, n));
    ProductNonNegative(Product(n as real, n as real), Product(Product(u, u), Power(1.0 + u, n)));
    ProductNonNegative(1.0 + u, LossFactor(n, u));
  }

  /** The final addition, in numbers. */
  lemma FinalAddition(u: real, n: nat, sum: real, magnitude: real, known: real, total: real)
    requires u >= 0.0 && Abs(sum) <= magnitude
    requires Abs(known - sum) <= Product(LossFactor(n, u), magnitude)
    requires Abs(total - known) <= Product(u, Abs(known))
    ensures Abs(total - sum) <= Product(TotalFactor(n, u), magnitude)
  {
    var lost := Product(LossFactor(n, u), magnitude);
    FactorTimes(n, u, magnitude);
    hide Product, LossFactor, TotalFactor;
    assert Abs(known) <= magnitude + lost;
    Monotone(u, Abs(known), magnitude + lost);
    Distribute(magnitude, lost, u);
    assert Abs(total - sum) <= Abs(total - known) + Abs(known - sum);
  }

  lemma FactorTimes(n: nat, u: real, magnitude: real)
    ensures var lost := Product(LossFactor(n, u), magnitude);
            Product(TotalFactor(n, u), magnitude) == Product(u, magnitude) + lost + Product(u, lost)
  {
    var loss := LossFactor(n, u);
    hide LossFactor, Product;
    Distribute(u, Product(1.0 + u, loss), magnitude);
    Associate(1.0 + u, loss, magnitude);
    Distribute(1.0, u, Product(loss, magnitude));
    ProductOfOne(Product(loss, magnitude));
  }

  lemma TotalIsRepresentable(m: Arithmetic<real>, representable: real -> bool, weights: seq<real>, u: real)
    requires Accurate(m, representable, u)
    requires forall i | 0 <= i < |weights| :: representable(weights[i])
    ensures representable(Total(m, weights))
    ensures var known := Sums(m, weights).sum + Sums(m, weights).compensation;
            Abs(Total(m, weights) - known) <= Product(u, Abs(known))
  {
    SumsAreCapped(m, representable, weights, u);
    hide Accurate, Sums, SumCap, CompensationCap, Abs, Product;
    AccurateAt(m, representable, u, Sums(m, weights).sum, Sums(m, weights).compensation);
  }

  /** The compensated total of n weights, of any sign, is their sum up to TotalFactor times
      the sum of their magnitudes. */
  lemma TotalWithin(m: Arithmetic<real>, representable: real -> bool, weights: seq<real>, u: real)
    requires Accurate(m, representable, u)
    requires forall i | 0 <= i < |weights| :: representable(weights[i])
    ensures Abs(Total(m, weights) - RealSum(weights))
         <= Product(TotalFactor(|weights|, u), RealSum(Magnitudes(weights)))
  {
    hide *;
    UnitRoundoff(m, representable, u);
    CompensatedSumWithin(m, representable, weights, u);
    TotalIsRepresentable(m, representable, weights, u);
    MagnitudeOfSum(weights);
    FinalAddition(u, |weights|, RealSum(weights), RealSum(Magnitudes(weights)),
                  Sums(m, weights).sum + Sums(m, weights).compensation, Total(m, weights));
  }

  lemma AllDivisions(m: Arithmetic<real>, representable: real -> bool, weights: seq<real>, u: real)
    requires Accurate(m, representable, u) && Total(m, weights) != 0.0 && representable(Total(m, weights))
    requires forall i | 0 <= i < |weights| :: representable(weights[i])
    ensures forall i | 0 <= i < |weights| ::
              Abs(m.div(weights[i], Total(m, weights)) - weights[i] / Total(m, weights))
                <= Product(u, Abs(weights[i] / Total(m, weights)))
  {
    hide Accurate, Total, Abs, Product;
    forall i | 0 <= i < |weights|
      ensures Abs(m.div(weights[i], Total(m, weights)) - weights[i] / Total(m, weights))
           <= Product(u, Abs(weights[i] / Total(m, weights)))
    {
      AccurateAt(m, representable, u, weights[i], Total(m, weights));
    }
  }

  /** So the bound on the scaled sum is one in the weights alone: for any signs, its distance
      from one is at most (TotalFactor + u) * (sum of the magnitudes) / |total|. */
  lemma ScaledNearOneByWeights(m: Arithmetic<real>, representable: real -> bool, weights: seq<real>, u: real)
    requires Accurate(m, representable, u)
    requires forall i | 0 <= i < |weights| :: representable(weights[i])
    requires Total(m, weights) != 0.0
    ensures Product(Abs(RealSum(Scaled(m, weights)) - 1.0), Abs(Total(m, weights)))
         <= Product(TotalFactor(|weights|, u) + u, RealSum(Magnitudes(weights)))
  {
    hide *;
    TotalWithin(m, representable, weights, u);
    TotalIsRepresentable(m, representable, weights, u);
    AllDivisions(m, representable, weights, u);
    ScaledNearOneGiven(m, weights, Product(TotalFactor(|weights|, u), RealSum(Magnitudes(weights))), u);
    Distribute(TotalFactor(|weights|, u), u, RealSum(Magnitudes(weights)));
  }

  /** The distance from one of n scaled weights of one sign; 2 u up to second order. */
  function Deviation(n: nat, u: real): real
    requires TotalFactor(n, u) < 1.0
  {
    (TotalFactor(n, u) + u) / (1.0 - TotalFactor(n, u))
  }

  /** A total that is off by less than the sum itself has its sign and most of its size. */
  lemma TotalAtLeast(total: real, sum: real, factor: real)
    requires 0.0 <= factor < 1.0 && total != 0.0
    requires Abs(total - sum) <= Product(factor, Abs(sum))
    ensures Abs(sum) > 0.0 && Abs(total) >= Product(1.0 - factor, Abs(sum))
    ensures total > 0.0 <==> sum > 0.0
  {
    Distribute(1.0 - factor, factor, Abs(sum));
    ProductOfOne(Abs(sum));
    if sum == 0.0 {
      NothingTimes(factor);
    } else {
      Positive(1.0 - factor, Abs(sum));
    }
    hide Product;
  }

  lemma NothingTimes(a: real)
    ensures Product(a, 0.0) == 0.0
  {
  }

  lemma Positive(a: real, b: real)
    requires a > 0.0 && b > 0.0
    ensures Product(a, b) > 0.0
  {
  }

  lemma DeviationFrom(n: nat, x: real, total: real, sum: real, u: real)
    requires u >= 0.0 && x >= 0.0 && total != 0.0 && TotalFactor(n, u) < 1.0
    requires Abs(total - sum) <= Product(TotalFactor(n, u), Abs(sum))
    requires Product(x, Abs(total)) <= Product(TotalFactor(n, u) + u, Abs(sum))
    ensures x <= Deviation(n, u)
    ensures Abs(sum) > 0.0 && (total > 0.0 <==> sum > 0.0)
  {
    LossFactorNonNegative(n, u);
    hide TotalFactor, Product, Abs;
    var factor := TotalFactor(n, u);
    TotalAtLeast(total, sum, factor);
    Monotone(x, Product(1.0 - factor, Abs(sum)), Abs(total));
    BoundedQuotient(x, factor + u, 1.0 - factor, Abs(sum));
  }

  lemma BoundedQuotient(x: real, a: real, b: real, s: real)
    requires b > 0.0 && s > 0.0 && Product(x, Product(b, s)) <= Product(a, s)
    ensures x <= a / b
  {
    Associate(x, b, s);
    CancelFactor(Product(x, b), a, s);
    hide Product;
    QuotientTimes(a, b);
    TimesProduct(x, b);
    TimesProduct(a / b, b);
    CancelFactor(x, a / b, b);
  }

  /** The promise about normalised weights, with every operation rounded: n weights of one
      sign whose total is not zero are scaled to a sum that is within Deviation(n, u) of one,
      and the total has the sign of the weights. */
  lemma NormalisedNearOne(m: Arithmetic<real>, representable: real -> bool, weights: seq<real>, u: real)
    requires Accurate(m, representable, u)
    requires forall i | 0 <= i < |weights| :: representable(weights[i])
    requires NonNegative(weights) || NonPositive(weights)
    requires Total(m, weights) != 0.0 && TotalFactor(|weights|, u) < 1.0
    ensures Abs(RealSum(Scaled(m, weights)) - 1.0) <= Deviation(|weights|, u)
    ensures Total(m, weights) > 0.0 <==> RealSum(weights) > 0.0
    ensures RealSum(weights) != 0.0
  {
    hide *;
    UnitRoundoff(m, representable, u);
    LossFactorNonNegative(|weights|, u);
    MagnitudeOfSum(weights);
    TotalWithin(m, representable, weights, u);
    ScaledNearOneByWeights(m, representable, weights, u);
    AbsNonNegative(RealSum(Scaled(m, weights)) - 1.0);
    DeviationFrom(|weights|, Abs(RealSum(Scaled(m, weights)) - 1.0), Total(m, weights), RealSum(weights), u);
    NotZero(RealSum(weights));
  }

  lemma AbsNonNegative(x: real)
    ensures Abs(x) >= 0.0
  {
  }

  /** If the second-order loss is below a hundredth of u, the distance is below 2.1 u: in
      binary floating point, where 2 u is one unit in the last place of 1.0, about one unit. */
  lemma DeviationIsTwoRoundings(n: nat, u: real)
    requires 0.0 <= u <= 0.01 && LossFactor(n, u) <= 0.01 * u
    ensures TotalFactor(n, u) < 1.0 && Deviation(n, u) <= 2.1 * u
  {
    LossFactorNonNegative(n, u);
    var loss, factor := LossFactor(n, u), TotalFactor(n, u);
    assert factor <= 1.02 * u by {
      Monotone(1.0 + u, loss, 0.01 * u);
      Between(0.01 * u, 1.0 + u, 1.0 + u, 1.01);
    }
    hide LossFactor, Product, TotalFactor;
    RatioAtMost(factor + u, 1.0 - factor, 2.1 * u);
  }

  lemma RatioAtMost(a: real, b: real, c: real)
    requires b >= 0.98 && 0.98 * c >= a && c >= 0.0
    ensures a / b <= c
  {
    assert c * (b - 0.98) >= 0.0;
    QuotientTimes(a, b);
    CancelFactor(a / b, c, b);
  }
}
