/** Binary expansions of naturals: powers of two, shifts and bit counts. */
module Binary {

  function Pow2(k: nat): (p: nat)
    ensures p >= 1
  {
    if k == 0 then 1 else 2 * Pow2(k - 1)
  }

  /** `n >> k` */
  function Shr(n: nat, k: nat): nat {
    if k == 0 then n else Shr(n / 2, k - 1)
  }

  /** Number of one bits. */
  function Pop(n: nat): nat {
    if n == 0 then 0 else n % 2 + Pop(n / 2)
  }

  /** Number of one bits among the low `k` bits. */
  function LowPop(n: nat, k: nat): nat {
    if k == 0 then 0 else n % 2 + LowPop(n / 2, k - 1)
  }

  lemma {:induction false} ShrStep(n: nat, k: nat)
    ensures Shr(n, k + 1) == Shr(n, k) / 2
  {
    if k > 0 {
      ShrStep(n / 2, k - 1);
    }
  }

  lemma {:induction false} DoubleBounds(n: nat, q: nat, p: nat)
    requires q * p <= n / 2 < (q + 1) * p
    ensures q * (2 * p) <= n < (q + 1) * (2 * p)
  {
    var a, b := q * p, (q + 1) * p;
    assert q * (2 * p) == 2 * a;
    assert (q + 1) * (2 * p) == 2 * b;
  }

  lemma {:induction false} ShrIsDiv(n: nat, k: nat)
    ensures Shr(n, k) * Pow2(k) <= n < (Shr(n, k) + 1) * Pow2(k)
  {
    if k > 0 {
      ShrIsDiv(n / 2, k - 1);
      DoubleBounds(n, Shr(n, k), Pow2(k - 1));
    }
  }

  lemma {:induction false} ShrMonotone(a: nat, b: nat, k: nat)
    requires a <= b
    ensures Shr(a, k) <= Shr(b, k)
  {
    if k > 0 {
      ShrMonotone(a / 2, b / 2, k - 1);
    }
  }

  lemma {:induction false} PopSplit(n: nat, k: nat)
    ensures Pop(n) == LowPop(n, k) + Pop(Shr(n, k))
  {
    if k > 0 {
      PopSplit(n / 2, k - 1);
    }
  }

  lemma {:induction false} LowPopStep(n: nat, k: nat)
    ensures LowPop(n, k + 1) == LowPop(n, k) + Shr(n, k) % 2
  {
    if k > 0 {
      LowPopStep(n / 2, k - 1);
    }
  }

  /** The predecessor agrees with `n` above a level that holds a one bit below it. */
  lemma {:induction false} ShrPred(n: nat, k: nat)
    requires n > 0
    ensures LowPop(n, k) > 0 ==> Shr(n - 1, k) == Shr(n, k)
    ensures LowPop(n, k) == 0 ==> Shr(n, k) > 0 && Shr(n - 1, k) == Shr(n, k) - 1
    ensures LowPop(n, k) > 0 ==> Pop(n) - Pop(n - 1) == LowPop(n, k) - LowPop(n - 1, k)
  {
    if k > 0 {
      if n % 2 == 0 {
        assert (n - 1) / 2 == n / 2 - 1;
        ShrPred(n / 2, k - 1);
      } else {
        assert (n - 1) / 2 == n / 2;
      }
    }
  }

  lemma {:induction false} PopSucc(n: nat)
    ensures Pop(n + 1) <= Pop(n) + 1
  {
    if n % 2 == 1 {
      assert (n + 1) / 2 == n / 2 + 1;
      PopSucc(n / 2);
    } else {
      assert (n + 1) / 2 == n / 2;
    }
  }

  lemma {:induction false} PopBound(n: nat)
    ensures Pop(n) <= n
  {
    if n > 0 {
      PopBound(n / 2);
    }
  }

  lemma {:induction false} PopPositive(n: nat)
    ensures Pop(n) == 0 <==> n == 0
  {
    if n > 0 {
      PopPositive(n / 2);
    }
  }

  lemma {:induction false} Pow2Monotone(a: nat, b: nat)
    requires a <= b
    ensures Pow2(a) <= Pow2(b)
  {
    if a < b {
      Pow2Monotone(a, b - 1);
    }
  }

  lemma {:induction false} ShrZero(n: nat, k: nat)
    requires n < Pow2(k)
    ensures Shr(n, k) == 0
  {
    if k > 0 {
      ShrZero(n / 2, k - 1);
    }
  }

  lemma MulDouble(p: int, a: int)
    ensures (2 * p) * a == 2 * (p * a)
  {
  }

  lemma Pow2Mul(k: nat, c: int)
    requires k > 0
    ensures Pow2(k) * c == 2 * (Pow2(k - 1) * c)
  {
    MulDouble(Pow2(k - 1), c);
  }

  lemma {:induction false} MulLe(a: nat, b: nat, p: nat)
    requires a <= b
    ensures a * p <= b * p
  {
  }

  lemma {:induction false} DoubleLessPop(a: nat, b: nat)
    requires a < b
    ensures 2 * a - Pop(a) < 2 * b - Pop(b)
  {
    PopSucc(b - 1);
    if a < b - 1 {
      DoubleLessPop(a, b - 1);
    }
  }

  lemma {:induction false} PopDouble(n: nat)
    ensures Pop(2 * n) == Pop(n) && Pop(2 * n + 1) == Pop(n) + 1
  {
  }

  lemma {:induction false} Pow2Step(k: nat)
    ensures Pow2(0) == 1 && Pow2(k + 1) == 2 * Pow2(k)
  {
  }

  lemma {:induction false} PopPow2(k: nat)
    ensures Pop(Pow2(k)) == 1
  {
    if k == 0 {
      assert Pop(1) == 1;
    } else {
      hide *;
      PopPow2(k - 1);
      Pow2Step(k - 1);
      PopDouble(Pow2(k - 1));
    }
  }

  lemma {:induction false} Pow2Add(a: nat, b: nat)
    ensures Pow2(a + b) == Pow2(a) * Pow2(b)
  {
    if a > 0 {
      Pow2Add(a - 1, b);
      assert 2 * (Pow2(a - 1) * Pow2(b)) == (2 * Pow2(a - 1)) * Pow2(b);
    }
  }

  lemma {:induction false} Pow2Values()
    ensures Pow2(8) == 0x100 && Pow2(16) == 0x1_0000
    ensures Pow2(31) == 0x8000_0000 && Pow2(32) == 0x1_0000_0000
  {
    assert Pow2(4) == 16;
    Pow2Add(4, 4); Pow2Add(8, 8); Pow2Add(16, 16);
  }

  lemma {:induction false} BitsDef(n: nat, k: nat)
    requires k > 0
    ensures LowPop(n, k) == n % 2 + LowPop(n / 2, k - 1)
    ensures Shr(n, k) == Shr(n / 2, k - 1)
  {
  }

  lemma {:induction false} BitsZero(n: nat)
    ensures LowPop(n, 0) == 0 && Shr(n, 0) == n
  {
  }
}
