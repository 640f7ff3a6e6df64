/** The few facts about quotients and remainders by a variable divisor that the even
    distributions need. */
module Division {

  lemma {:induction false} MulGap(a: nat, b: nat, n: nat)
    requires a < b
    ensures a * n + n <= b * n
  {
    assert (b - 1) * n == b * n - n;
    if a < b - 1 {
      MulGap(a, b - 1, n);
    }
  }

  lemma DivMod(w: nat, n: nat)
    requires n > 0
    ensures w == (w / n) * n + w % n && w % n < n
  {
  }

  /** Quotient and remainder are unique. */
  lemma DivisionUnique(a: nat, n: nat, q: nat, r: nat)
    requires r < n && a == q * n + r
    ensures a / n == q && a % n == r
  {
    var q' := a / n;
    DivMod(a, n);
    if q' < q {
      MulGap(q', q, n);
    } else if q < q' {
      MulGap(q, q', n);
    }
  }

  lemma Ceiling(w: nat, n: nat)
    requires n > 0
    ensures (w + n - 1) / n == w / n + if w % n == 0 then 0 else 1
  {
    var q, r := w / n, w % n;
    DivMod(w, n);
    if r == 0 {
      DivisionUnique(w + n - 1, n, q, n - 1);
    } else {
      assert (q + 1) * n == q * n + n;
      DivisionUnique(w + n - 1, n, q + 1, r - 1);
    }
  }

  /** Two different numbers with the same remainder are at least the divisor apart. */
  lemma SameRemainderGap(i: nat, j: nat, n: nat)
    requires n > 0 && i < j && i % n == j % n
    ensures i + n <= j
  {
    DivMod(i, n);
    DivMod(j, n);
    if i / n < j / n {
      MulGap(i / n, j / n, n);
    } else if j / n < i / n {
      MulGap(j / n, i / n, n);
    }
  }
}
