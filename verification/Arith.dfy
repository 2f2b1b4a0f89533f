/** Division and remainders of integers, in the small steps the limb arithmetic needs. */
module Arith {

  lemma MulGap(m: int, a: int, b: int)
    requires m > 0 && a > b
    ensures m * a >= m * b + m
  {
    var k := a - b - 1;
    assert m * k >= 0;
    assert m * a == m * b + m * k + m;
  }

  lemma DivUnique(n: int, m: int, q: int, r: int)
    requires 0 <= r < m && n == m * q + r
    ensures n / m == q && n % m == r
  {
    var q' := n / m;
    assert n == m * q' + n % m;
    if q' > q {
      MulGap(m, q', q);
    } else if q' < q {
      MulGap(m, q, q');
    }
  }

  lemma MulNonneg(a: int, b: int)
    requires a >= 0 && b >= 0
    ensures a * b >= 0
  {
  }

  lemma MulBound(a: int, b: int, m: int, n: int)
    requires 0 <= a <= m && 0 <= b <= n
    ensures 0 <= a * b <= m * n
  {
    MulNonneg(a, b);
    MulNonneg(m - a, b);
    MulNonneg(m, n - b);
    assert m * n == m * (n - b) + m * b;
    assert m * b == (m - a) * b + a * b;
  }

  lemma DivLess(a: nat, s: nat, w: nat)
    requires s > 0 && a < s * w
    ensures a / s < w
  {
    var c := a / s;
    assert a == s * c + a % s;
    if c > w {
      MulGap(s, c, w);
    }
  }
}
