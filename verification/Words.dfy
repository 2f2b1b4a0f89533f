/** The bitwise operators of C on unsigned words, as functions of naturals. */
module Words {
  import opened Binary

  function And(a: nat, b: nat): nat
    decreases a
  {
    if a == 0 || b == 0 then 0
    else (if a % 2 == 1 && b % 2 == 1 then 1 else 0) + 2 * And(a / 2, b / 2)
  }

  lemma {:induction false} AndOdd(x: nat, m: nat)
    ensures And(x, 2 * m) == 2 * And(x / 2, m)
    ensures And(x, 2 * m + 1) == x % 2 + 2 * And(x / 2, m)
  {
  }

  lemma {:induction false} AndShift(x: nat, m: nat, k: nat)
    ensures And(x, Pow2(k) * m) == Pow2(k) * And(Shr(x, k), m)
  {
    if k > 0 {
      hide *;
      BitsDef(x, k);
      var a := Pow2(k - 1) * m;
      Pow2Mul(k, m);
      Pow2Mul(k, And(Shr(x, k), m));
      AndShift(x / 2, m, k - 1);
      AndOdd(x, a);
    }
  }

  /** The low `k` bits. */
  function Low(x: nat, k: nat): nat {
    if k == 0 then 0 else x % 2 + 2 * Low(x / 2, k - 1)
  }

  lemma {:induction false} LowIs(x: nat, k: nat)
    ensures x == Low(x, k) + Pow2(k) * Shr(x, k)
    ensures Low(x, k) < Pow2(k)
  {
    if k > 0 {
      LowIs(x / 2, k - 1);
      MulDouble(Pow2(k - 1), Shr(x, k));
    }
  }

  /** Masking with `2^k - 1` keeps the low `k` bits. */
  lemma {:induction false} AndLow(x: nat, k: nat)
    ensures And(x, Pow2(k) - 1) == Low(x, k)
  {
    if k > 0 {
      AndLow(x / 2, k - 1);
      Pow2Step(k - 1);
      hide And, Pow2;
      AndOdd(x, Pow2(k - 1) - 1);
    }
  }

  /** Exclusive or of the low `k` bits. */
  function Xor(a: nat, b: nat, k: nat): (r: nat)
    ensures r < Pow2(k)
  {
    if k == 0 then 0 else (a + b) % 2 + 2 * Xor(a / 2, b / 2, k - 1)
  }

  lemma {:induction false} XorZero(a: nat, k: nat)
    requires a < Pow2(k)
    ensures Xor(a, 0, k) == a
  {
    if k > 0 {
      XorZero(a / 2, k - 1);
    }
  }

  lemma XorStep(a: nat, b: nat, k: nat)
    ensures Xor(a, b, 0) == 0 && Xor(a, b, k + 1) == (a + b) % 2 + 2 * Xor(a / 2, b / 2, k)
  {
  }

  lemma {:induction false} XorXor(a: nat, b: nat, k: nat)
    requires b < Pow2(k)
    ensures Xor(a, Xor(a, b, k), k) == b
  {
    hide *;
    Pow2Step(0);
    if k > 0 {
      Pow2Step(k - 1);
      XorXor(a / 2, b / 2, k - 1);
      XorStep(a, b, k - 1);
      XorStep(a, Xor(a, b, k), k - 1);
      BitTwice(a, b, Xor(a / 2, b / 2, k - 1), Xor(a, b, k));
    }
  }

  lemma BitTwice(a: nat, b: nat, x: nat, y: nat)
    requires y == (a + b) % 2 + 2 * x
    ensures y / 2 == x && (a + y) % 2 == b % 2
  {
  }

  lemma {:induction false} LowSmall(x: nat, k: nat)
    requires x < Pow2(k)
    ensures Low(x, k) == x
  {
    if k > 0 {
      LowSmall(x / 2, k - 1);
    }
  }

  /** `a ^= mask & (a ^ b)` with the mask `flag - 1` of a word: keeps `a` for flag 1, takes `b` for flag 0. */
  function Select(a: nat, b: nat, flag: nat): nat {
    Xor(a, And(Xor(a, b, 64), (flag - 1) % 0x1_0000_0000_0000_0000), 64)
  }

  lemma {:induction false} Word64()
    ensures Pow2(64) == 0x1_0000_0000_0000_0000
  {
    hide *;
    Pow2Values();
    Pow2Add(32, 32);
  }

  lemma {:induction false} SelectIs(a: nat, b: nat, flag: nat)
    requires a < 0x1_0000_0000_0000_0000 && b < 0x1_0000_0000_0000_0000 && flag <= 1
    ensures Select(a, b, flag) == if flag == 1 then a else b
  {
    hide And, Xor, Pow2;
    Word64();
    var d := Xor(a, b, 64);
    if flag == 1 {
      assert And(d, 0) == 0 by { AndNone(d); }
      XorZero(a, 64);
    } else {
      AndLow(d, 64);
      LowSmall(d, 64);
      XorXor(a, b, 64);
    }
  }

  lemma AndNone(x: nat)
    ensures And(x, 0) == 0 && And(0, x) == 0
  {
  }

  function Or(a: nat, b: nat): nat
    decreases a
  {
    if a == 0 then b
    else (if a % 2 == 1 || b % 2 == 1 then 1 else 0) + 2 * Or(a / 2, b / 2)
  }

  lemma OrEven(a: nat, c: nat)
    ensures Or(a, 2 * c) == a % 2 + 2 * Or(a / 2, c)
  {
    OrHalf(a, 2 * c);
    hide Or;
  }

  lemma OrHalf(a: nat, b: nat)
    ensures Or(a, b) % 2 == (if a % 2 == 1 || b % 2 == 1 then 1 else 0) && Or(a, b) / 2 == Or(a / 2, b / 2)
  {
  }

  lemma {:induction false} OrZero(a: nat)
    ensures Or(a, 0) == a
  {
    if a > 0 { OrZero(a / 2); }
  }

  function Shifted(b: nat, k: nat): nat {
    if k == 0 then b else 2 * Shifted(b, k - 1)
  }

  lemma {:induction false} ShiftedIs(b: nat, k: nat)
    ensures Shifted(b, k) == Pow2(k) * b
  {
    if k > 0 {
      ShiftedIs(b, k - 1);
      MulDouble(Pow2(k - 1), b);
    }
  }

  lemma {:induction false} OrShifted(a: nat, b: nat, k: nat)
    requires a < Pow2(k)
    ensures Or(a, Shifted(b, k)) == a + Shifted(b, k)
  {
    if k == 0 {
      assert Or(0, b) == b;
    } else {
      Pow2Step(k - 1);
      OrShifted(a / 2, b, k - 1);
      var c := Shifted(b, k - 1);
      OrEven(a, c);
    }
  }

  /** Words whose set bits lie on either side of bit `k` are joined by adding them. */
  lemma {:induction false} OrJoins(a: nat, b: nat, k: nat)
    requires a < Pow2(k)
    ensures Or(a, Pow2(k) * b) == a + Pow2(k) * b
  {
    hide *;
    ShiftedIs(b, k);
    OrShifted(a, b, k);
  }

  lemma {:induction false} OrBelow(a: nat, b: nat, k: nat)
    requires a < Pow2(k) && b < Pow2(k)
    ensures Or(a, b) < Pow2(k)
  {
    if a > 0 && k > 0 {
      OrBelow(a / 2, b / 2, k - 1);
    }
  }

  // ---------- single bits ----------

  predicate Bit(x: nat, k: nat) {
    Shr(x, k) % 2 == 1
  }

  lemma BitStep(x: nat, i: nat)
    ensures Bit(x, i) == if i == 0 then x % 2 == 1 else Bit(x / 2, i - 1)
  {
  }

  /** The mask `2^k` picks out bit `k`. */
  lemma {:induction false} TestBit(x: nat, k: nat)
    ensures And(x, Pow2(k)) == Pow2(k) * (Shr(x, k) % 2)
  {
    AndShift(x, 1, k);
    assert And(Shr(x, k), 1) == Shr(x, k) % 2 by { AndOdd(Shr(x, k), 0); AndNone(Shr(x, k) / 2); }
  }

  lemma {:induction false} AndBit(x: nat, k: nat)
    ensures And(x, Pow2(k)) != 0 <==> Bit(x, k)
    ensures And(x, Pow2(k)) != 0 <==> Shr(x, k) % 2 == 1
  {
    hide And, Shr, Pow2;
    TestBit(x, k);
  }

  /** Setting a bit leaves the others alone. */
  lemma {:induction false} OrBit(x: nat, j: nat, k: nat)
    ensures Bit(Or(x, Pow2(j)), k) <==> k == j || Bit(x, k)
  {
    hide Or, Bit, Pow2;
    var p, y := Pow2(j), Or(x, Pow2(j));
    OrHalf(x, p);
    BitStep(x, k);
    BitStep(y, k);
    Pow2Step(if j > 0 then j - 1 else 0);
    if k > 0 {
      if j > 0 {
        OrBit(x / 2, j - 1, k - 1);
      } else {
        OrZero(x / 2);
      }
    }
  }

  lemma {:induction false} XorBit(a: nat, b: nat, k: nat, i: nat)
    requires i < k
    ensures Bit(Xor(a, b, k), i) == (Bit(a, i) != Bit(b, i))
  {
    hide *;
    var x, y := Xor(a, b, k), Xor(a / 2, b / 2, k - 1);
    XorStep(a, b, k - 1);
    Parts(a, b, x, y);
    BitStep(a, i); BitStep(b, i); BitStep(x, i);
    if i > 0 {
      XorBit(a / 2, b / 2, k - 1, i - 1);
    }
  }

  lemma Parts(a: nat, b: nat, x: nat, y: nat)
    requires x == (a + b) % 2 + 2 * y
    ensures x / 2 == y && (x % 2 == 1) == ((a % 2 == 1) != (b % 2 == 1))
  {
  }

  lemma {:induction false} ShrBit(a: nat, j: nat, i: nat)
    ensures Bit(Shr(a, j), i) == Bit(a, i + j)
  {
    if j > 0 {
      BitsDef(a, j);
      BitsDef(a, i + j);
      ShrBit(a / 2, j - 1, i);
    } else {
      BitsZero(a);
    }
  }

  lemma {:induction false} ShiftedBit(a: nat, j: nat, i: nat)
    ensures Bit(Shifted(a, j), i) == (i >= j && Bit(a, i - j))
  {
    if j > 0 {
      var b := Shifted(a, j - 1);
      BitStep(2 * b, i);
      if i > 0 {
        ShiftedBit(a, j - 1, i - 1);
      }
    }
  }
}
