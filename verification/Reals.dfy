/** Sums, magnitudes and signs of lists of real numbers.

    Products that occur in several proofs go through `Product`, so that they can be carried
    through a proof without being multiplied out. */
module Reals {
  import opened Ordering

  function Abs(x: real): real {
    if x < 0.0 then -x else x
  }

  function RealSum(s: seq<real>): real {
    if s == [] then 0.0 else RealSum(s[..|s| - 1]) + s[|s| - 1]
  }

  function Magnitudes(s: seq<real>): (r: seq<real>)
    ensures |r| == |s|
  {
    Map(s, Abs)
  }

  function Product(a: real, b: real): real {
    a * b
  }

  function Power(x: real, k: nat): real {
    if k == 0 then 1.0 else Product(Power(x, k - 1), x)
  }

  ghost predicate NonNegative(s: seq<real>) {
    forall i | 0 <= i < |s| :: s[i] >= 0.0
  }

  ghost predicate NonPositive(s: seq<real>) {
    forall i | 0 <= i < |s| :: s[i] <= 0.0
  }

  // ---------------------------------------------------------------- products

  lemma Between(a: real, lo: real, x: real, hi: real)
    requires a >= 0.0 && lo <= x <= hi
    ensures Product(a, lo) <= Product(a, x) <= Product(a, hi)
    ensures Product(lo, a) <= Product(x, a) <= Product(hi, a)
  {
    assert a * (x - lo) >= 0.0 && a * (hi - x) >= 0.0;
  }

  lemma Monotone(a: real, x: real, y: real)
    requires a >= 0.0 && x <= y
    ensures Product(a, x) <= Product(a, y)
  {
    Between(a, x, x, y);
  }

  lemma ProductNonNegative(a: real, b: real)
    requires a >= 0.0 && b >= 0.0
    ensures Product(a, b) >= 0.0
  {
  }

  lemma Distribute(a: real, b: real, x: real)
    ensures Product(a + b, x) == Product(a, x) + Product(b, x)
    ensures Product(x, a + b) == Product(x, a) + Product(x, b)
  {
  }

  lemma ProductOfOne(a: real)
    ensures Product(a, 1.0) == a && Product(1.0, a) == a
  {
  }

  lemma Commute(a: real, b: real)
    ensures Product(a, b) == Product(b, a)
  {
  }

  lemma Associate(a: real, b: real, c: real)
    ensures Product(a, Product(b, c)) == Product(Product(a, b), c)
  {
  }

  lemma PowerNext(x: real, k: nat)
    requires k > 0
    ensures Power(x, k) == Product(Power(x, k - 1), x)
  {
    hide Product;
  }

  lemma NoPower(x: real)
    ensures Power(x, 0) == 1.0
  {
  }

  lemma {:induction false} PowerAtLeastOne(x: real, k: nat)
    requires x >= 1.0
    ensures Power(x, k) >= 1.0
  {
    if k == 0 {
      NoPower(x);
    } else {
      PowerAtLeastOne(x, k - 1);
      PowerNext(x, k);
      hide Power;
      Monotone(Power(x, k - 1), 1.0, x);
      ProductOfOne(Power(x, k - 1));
    }
  }

  lemma {:induction false} PowerGrows(x: real, j: nat, k: nat)
    requires x >= 1.0 && j <= k
    ensures Power(x, j) <= Power(x, k)
    decreases k
  {
    if j < k {
      PowerGrows(x, j, k - 1);
      PowerAtLeastOne(x, k - 1);
      PowerNext(x, k);
      hide Power;
      Monotone(Power(x, k - 1), 1.0, x);
      ProductOfOne(Power(x, k - 1));
    }
  }

  lemma AbsProduct(a: real, b: real)
    ensures Abs(Product(a, b)) == Product(Abs(a), Abs(b))
  {
    if a >= 0.0 {
      if b >= 0.0 {
        ProductNonNegative(a, b);
      } else {
        ProductNonNegative(a, -b);
        assert a * b == -(a * -b);
      }
    } else {
      if b >= 0.0 {
        ProductNonNegative(-a, b);
        assert a * b == -(-a * b);
      } else {
        ProductNonNegative(-a, -b);
        assert a * b == -a * -b;
      }
    }
  }

  lemma Divides(q: real, a: real, b: real)
    requires b != 0.0 && Product(q, b) == a
    ensures a / b == q
  {
  }

  lemma QuotientTimes(a: real, b: real)
    requires b != 0.0
    ensures Product(a / b, b) == a
  {
  }

  lemma AbsQuotient(a: real, b: real)
    requires b != 0.0
    ensures Abs(a / b) == Abs(a) / Abs(b)
  {
    QuotientTimes(a, b);
    AbsProduct(a / b, b);
    hide Product;
    Divides(Abs(a / b), Abs(a), Abs(b));
  }

  // ---------------------------------------------------------------- sums

  function Zeros(n: nat): (r: seq<real>)
    ensures |r| == n && forall i | 0 <= i < n :: r[i] == 0.0
  {
    seq(n, _ => 0.0)
  }

  lemma {:induction false} NothingAdded(s: seq<real>)
    requires forall i | 0 <= i < |s| :: s[i] == 0.0
    ensures RealSum(s) == 0.0
  {
    if s != [] {
      NothingAdded(s[..|s| - 1]);
    }
  }

  lemma {:induction false} SumBound(s: seq<real>, e: real)
    requires forall i | 0 <= i < |s| :: Abs(s[i]) <= e
    ensures Abs(RealSum(s)) <= |s| as real * e
  {
    if s != [] {
      var n := |s| as real;
      SumBound(s[..|s| - 1], e);
      assert (n - 1.0) * e == n * e - e;
    }
  }

  /** Sums differ by no more than the sum of the bounds on the differences. */
  lemma {:induction false} SumGap(a: seq<real>, b: seq<real>, bounds: seq<real>)
    requires |a| == |b| == |bounds|
    requires forall i | 0 <= i < |a| :: Abs(a[i] - b[i]) <= bounds[i]
    ensures Abs(RealSum(a) - RealSum(b)) <= RealSum(bounds)
  {
    if a != [] {
      var last := |a| - 1;
      SumGap(a[..last], b[..last], bounds[..last]);
    }
  }

  function Multiples(s: seq<real>, u: real): (r: seq<real>)
    ensures |r| == |s| && forall i | 0 <= i < |s| :: r[i] == Product(u, s[i])
  {
    seq(|s|, i requires 0 <= i < |s| => Product(u, s[i]))
  }

  lemma {:induction false} SumOfMultiples(s: seq<real>, u: real)
    ensures RealSum(Multiples(s, u)) == Product(u, RealSum(s))
  {
    if s == [] {
      assert RealSum(s) == 0.0;
    } else {
      hide Product;
      var last := |s| - 1;
      SumOfMultiples(s[..last], u);
      assert Multiples(s, u)[..last] == Multiples(s[..last], u);
      Distribute(RealSum(s[..last]), s[last], u);
    }
  }

  function Quotients(s: seq<real>, d: real): (q: seq<real>)
    requires d != 0.0
    ensures |q| == |s| && forall i | 0 <= i < |s| :: q[i] == s[i] / d
  {
    seq(|s|, i requires 0 <= i < |s| => s[i] / d)
  }

  lemma {:induction false} SumOfQuotients(s: seq<real>, d: real, q: seq<real>)
    requires d != 0.0 && |q| == |s| && forall i | 0 <= i < |s| :: q[i] == s[i] / d
    ensures RealSum(q) == RealSum(s) / d
  {
    if s != [] {
      var last := |s| - 1;
      SumOfQuotients(s[..last], d, q[..last]);
      assert RealSum(s[..last]) / d + s[last] / d == (RealSum(s[..last]) + s[last]) / d;
    }
  }

  lemma {:induction false} RealSumRemove(s: seq<real>, j: nat)
    requires j < |s|
    ensures RealSum(s) == RealSum(s[..j] + s[j + 1..]) + s[j]
  {
    var last := |s| - 1;
    var rest := s[..j] + s[j + 1..];
    if j < last {
      RealSumRemove(s[..last], j);
      assert rest[..|rest| - 1] == s[..last][..j] + s[..last][j + 1..];
      assert rest[|rest| - 1] == s[last];
    } else {
      assert rest == s[..last];
    }
  }

  lemma {:induction false} RealSumPermuted(a: seq<real>, b: seq<real>)
    requires Permuted(a, b)
    ensures RealSum(a) == RealSum(b)
  {
    PermutedLength(a, b);
    if a == [] {
      assert b == [];
    } else {
      assert a[0] in b;
      var j :| 0 <= j < |b| && b[j] == a[0];
      hide *;
      RemoveBoth(a, b, j);
      RealSumPermuted(a[1..], b[..j] + b[j + 1..]);
      RealSumRemove(a, 0);
      RealSumRemove(b, j);
      assert a[..0] + a[1..] == a[1..];
    }
  }

  // ---------------------------------------------------------------- signs

  /** What the positive numbers add up to, and what the negative ones do. */
  function Positives(s: seq<real>): real {
    if s == [] then 0.0 else
    var x := s[|s| - 1];
    Positives(s[..|s| - 1]) + if x > 0.0 then x else 0.0
  }

  function Negatives(s: seq<real>): real {
    if s == [] then 0.0 else
    var x := s[|s| - 1];
    Negatives(s[..|s| - 1]) + if x < 0.0 then -x else 0.0
  }

  lemma MagnitudesSnoc(s: seq<real>)
    requires s != []
    ensures RealSum(Magnitudes(s)) == RealSum(Magnitudes(s[..|s| - 1])) + Abs(s[|s| - 1])
  {
    assert Magnitudes(s)[..|s| - 1] == Magnitudes(s[..|s| - 1]);
    hide Abs;
  }

  lemma {:induction false} SignedParts(s: seq<real>)
    ensures Positives(s) >= 0.0 && Negatives(s) >= 0.0
    ensures RealSum(s) == Positives(s) - Negatives(s)
    ensures RealSum(Magnitudes(s)) == Positives(s) + Negatives(s)
    ensures Negatives(s) == 0.0 <==> NonNegative(s)
    ensures Positives(s) == 0.0 <==> NonPositive(s)
  {
    if s != [] {
      SignedParts(s[..|s| - 1]);
      MagnitudesSnoc(s);
      hide Magnitudes;
    }
  }

  /** A sum is no larger than the sum of the magnitudes, and as large exactly when no two of
      the numbers differ in sign. */
  lemma MagnitudeOfSum(s: seq<real>)
    ensures Abs(RealSum(s)) <= RealSum(Magnitudes(s))
    ensures Abs(RealSum(s)) == RealSum(Magnitudes(s)) <==> NonNegative(s) || NonPositive(s)
  {
    hide RealSum, Magnitudes, Positives, Negatives, NonNegative, NonPositive;
    SignedParts(s);
  }

  lemma SignOfSum(s: seq<real>)
    ensures NonNegative(s) ==> RealSum(s) >= 0.0
    ensures NonPositive(s) ==> RealSum(s) <= 0.0
  {
    hide RealSum, Magnitudes, Positives, Negatives, NonNegative, NonPositive;
    SignedParts(s);
  }

  lemma QuotientSigns(s: seq<real>, d: real, q: seq<real>)
    requires d != 0.0 && |q| == |s| && forall i | 0 <= i < |s| :: q[i] == s[i] / d
    ensures NonNegative(q) <==> if d > 0.0 then NonNegative(s) else NonPositive(s)
  {
    forall i | 0 <= i < |s| ensures q[i] >= 0.0 <==> if d > 0.0 then s[i] >= 0.0 else s[i] <= 0.0 {
      assert q[i] * d == s[i];
    }
  }
}
