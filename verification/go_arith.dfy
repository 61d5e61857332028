/** Go's integer remainder. Go's `%` truncates toward zero, so the remainder
    takes the sign of the dividend; Dafny's `%` is Euclidean and never negative.
    Every divisor the client uses is positive (`iCount + 1`, 29, 13). */
module GoArith {

  /** `a % m` as Go computes it on a signed dividend and a positive divisor. */
  function TruncRem(a: int, m: int): (r: int)
    requires m > 0
    ensures (a - r) % m == 0
    ensures a >= 0 ==> 0 <= r < m
    ensures a < 0 ==> -m < r <= 0
  {
    if a >= 0 then
      DivUnique(a - a % m, m, a / m, 0);
      a % m
    else
      DivUnique(a + (-a) % m, m, -((-a) / m), 0);
      -((-a) % m)
  }

  /** Quotient and remainder are determined by `a == q * m + r` with `0 <= r < m`. */
  lemma {:induction false} DivUnique(a: int, m: int, q: int, r: int)
    requires m > 0 && 0 <= r < m && a == q * m + r
    ensures a % m == r && a / m == q
  {
    var q', r' := a / m, a % m;
    assert q' * m + r' == a;
    var d := q - q';
    assert d * m == q * m - q' * m;
    assert d * m == r' - r;
    if d >= 1 {
      MulAtLeast(d, m);
    } else if d <= -1 {
      assert d * m == -((-d) * m);
      MulAtLeast(-d, m);
    }
  }

  lemma MulAtLeast(d: int, m: int)
    requires m > 0 && d >= 1
    ensures d * m >= m
  {
  }

  /** On a non-negative dividend, Go's and Dafny's remainders agree. */
  lemma TruncRemAgrees(a: int, m: int)
    requires a >= 0 && m > 0
    ensures TruncRem(a, m) == a % m
  {
  }

  /** Whatever the sign of the dividend, Go's remainder is zero exactly when
      Dafny's is, so a divisibility test reads the same in both languages. */
  lemma {:induction false} TruncRemZeroIff(a: int, m: int)
    requires m > 0
    ensures TruncRem(a, m) == 0 <==> a % m == 0
  {
    if a < 0 {
      if (-a) % m == 0 {
        var q := (-a) / m;
        assert -a == q * m;
        assert a == (-q) * m;
        DivUnique(a, m, -q, 0);
      }
      if a % m == 0 {
        var q := a / m;
        assert a == q * m;
        assert -a == (-q) * m;
        DivUnique(-a, m, -q, 0);
      }
    }
  }
}
