/** Small facts of non-linear integer arithmetic that the solver does not find
    on its own. */
module Arith {

  lemma MulLeq(a: int, b: int, c: nat)
    requires a <= b
    ensures a * c <= b * c
  {
    assert b * c - a * c == (b - a) * c;
  }

  lemma MulLess(a: int, b: int, c: nat)
    requires a < b && c > 0
    ensures a * c + c <= b * c
  {
    MulLeq(a + 1, b, c);
  }

  /** Division by a positive number is characterised by its quotient interval. */
  lemma DivIsFloor(n: int, d: int, q: int)
    requires d > 0
    requires q * d <= n < (q + 1) * d
    ensures n / d == q
  {
    var q' := n / d;
    assert q' * d <= n < (q' + 1) * d;
    if q' < q {
      MulLeq(q' + 1, q, d);
    } else if q' > q {
      MulLeq(q + 1, q', d);
    }
  }

  lemma DivBounds(n: int, d: int)
    requires d > 0
    ensures (n / d) * d <= n < (n / d + 1) * d
  {
  }

  /** A quotient below `limit` when the dividend is below `limit * d`. */
  lemma QuotientBelow(n: int, d: int, limit: int)
    requires d > 0 && n < limit * d
    ensures n / d < limit
  {
    DivBounds(n, d);
    if n / d >= limit {
      MulLeq(limit, n / d, d);
    }
  }

  /** Division is monotone in the dividend. */
  lemma DivLeq(a: int, b: int, d: int)
    requires d > 0 && a <= b
    ensures a / d <= b / d
  {
    DivBounds(a, d);
    DivBounds(b, d);
    if a / d > b / d {
      MulLeq(b / d + 1, a / d, d);
    }
  }

  /** The number of multiples of a in [0, n), that is ceil(n / a). */
  function CeilDiv(n: nat, a: nat): nat
    requires a > 0
  {
    (n + a - 1) / a
  }

  /** ceil((q a + t) / a) for a remainder `t` below `a`. */
  lemma CeilDivOf(q: nat, t: nat, a: nat)
    requires t < a
    ensures CeilDiv(q * a + t, a) == if t == 0 then q else q + 1
  {
    assert (q + 1) * a == q * a + a;
    if t == 0 {
      DivIsFloor(q * a + a - 1, a, q);
    } else {
      assert (q + 2) * a == q * a + a + a;
      DivIsFloor(q * a + t + a - 1, a, q + 1);
    }
  }

  lemma CeilDivStep(m: nat, a: nat)
    requires a > 0
    ensures m % a == 0 ==> CeilDiv(m + 1, a) == CeilDiv(m, a) + 1 && CeilDiv(m, a) * a == m
    ensures m % a != 0 ==> CeilDiv(m + 1, a) == CeilDiv(m, a)
  {
    var q, t := m / a, m % a;
    assert m == q * a + t;
    CeilDivOf(q, t, a);
    if t + 1 < a {
      CeilDivOf(q, t + 1, a);
    } else {
      assert m + 1 == (q + 1) * a + 0;
      CeilDivOf(q + 1, 0, a);
    }
  }

  /** A quotient at most `limit` when the dividend is at most `limit * d`. */
  lemma QuotientAtMost(n: int, d: int, limit: int)
    requires d > 0 && 0 <= n <= limit * d
    ensures 0 <= n / d <= limit
  {
    DivIsFloor(limit * d, d, limit);
    DivLeq(n, limit * d, d);
  }

  /** A product with a natural factor takes the sign of the other factor. */
  lemma ProductSign(h: nat, n: int)
    ensures n >= 0 ==> h * n >= 0
    ensures n <= 0 ==> h * n <= 0
  {
    if n >= 0 {
      MulLeq(0, n, h);
    } else {
      MulLeq(n, 0, h);
    }
  }

  /** Multiplying by a stride of `4 w` is multiplying by `w`, then by 4. */
  lemma MulFour(s: int, w: int)
    ensures s * (4 * w) == 4 * (s * w)
  {
  }

  /** Offsets of the form 4a + 3 and 4b + k (k < 3) never meet. */
  lemma NotCongruent(a: int, b: int)
    ensures 4 * a + 3 != 4 * b && 4 * a + 3 != 4 * b + 1 && 4 * a + 3 != 4 * b + 2
  {
  }

  /** Byte `j` of block `s` of `n` blocks of `stride` bytes lies in the last block
      or in the first `n - 1`. */
  lemma BlockIndex(s: nat, n: nat, stride: nat, j: nat)
    requires s < n && j < stride
    ensures 0 <= s * stride && s * stride + j < n * stride
    ensures s < n - 1 ==> s * stride + j < (n - 1) * stride
    ensures s == n - 1 ==> s * stride + j == (n - 1) * stride + j
  {
    MulLeq(0, s, stride);
    assert n * stride == (n - 1) * stride + stride;
    if s < n - 1 {
      MulLess(s, n - 1, stride);
    }
  }
}
