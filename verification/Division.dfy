/** Facts about division with remainder that the solver needs help with. */
module Division {
  /** Quotient and remainder are unique. */
  lemma DivModUnique(q: int, r: int, d: int)
    requires 0 <= r < d
    ensures (q * d + r) / d == q && (q * d + r) % d == r
  {
    var x := q * d + r;
    var e := q - x / d;
    assert e * d == x % d - r by {
      assert x == d * (x / d) + x % d;
      assert e * d == q * d - (x / d) * d;
    }
    assert (-e) * d == -(e * d);
    if e >= 1 {
      MulGrows(e, d);
    } else if e <= -1 {
      MulGrows(-e, d);
    }
  }

  lemma MulGrows(e: int, d: int)
    requires e >= 1 && d >= 0
    ensures e * d >= d
  {
    assert (e - 1) * d >= 0;
    assert e * d == (e - 1) * d + d;
  }

  /** Adding a remainder to a multiple, and moving on to the next multiple. */
  lemma FromMultiple(k: int, n: int, d: int)
    requires 0 <= n < d && k % d == 0
    ensures (k + n) % d == n && (k + n) / d == k / d
    ensures (k + d) % d == 0 && (k + d) / d == k / d + 1
  {
    var m := k / d;
    assert k == m * d;
    DivModUnique(m, n, d);
    DivModUnique(m + 1, 0, d);
    assert (m + 1) * d == m * d + d;
  }
}
