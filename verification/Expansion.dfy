/** The digits of a scalar, limb by limb, in a base that divides the limbs. */
module Expansion {
  import opened Binary
  import opened Arith
  import opened Digits
  import opened Limbs

  type Schar = x: int | -128 <= x < 128

  lemma {:induction false} DivisionStep(w: int, p: int, b: nat, v: nat, w': int)
    requires b > 0 && w' == w + p * Digit(b, v)
    ensures w' + (b * p) * Rest(b, v) == w + p * v
  {
    var q, r := v / b, v % b;
    assert v == b * q + r;
    Factored(p, b * q, r);
    assert p * (b * q) == (b * p) * q;
  }

  lemma {:induction false} PutStep(b: nat, q: seq<int>, v: nat)
    requires b > 0
    ensures Weigh(b, q + [Digit(b, v)]) + Power(b, |q| + 1) * Rest(b, v) == Weigh(b, q) + Power(b, |q|) * v
  {
    hide Weigh, Power;
    var p := q + [Digit(b, v)];
    assert p[..|q|] == q && p[..|q| + 1] == p;
    WeighTake(b, p, |q|);
    PowerStep(b, |q|);
    DivisionStep(Weigh(b, q), Power(b, |q|), b, v, Weigh(b, p));
  }

  lemma {:induction false} QuotientFits(b: nat, v: nat, p: nat)
    requires b > 0 && v < b * p
    ensures Rest(b, v) < p
  {
    DivLess(v, b, p);
  }

  function Digit(b: nat, v: nat): (d: nat)
    requires b > 0
    ensures d < b
  {
    v % b
  }

  function Rest(b: nat, v: nat): nat
    requires b > 0
  {
    v / b
  }

  /** Writes the `n` digits of `v0` in base `b` from `at` on. */
  method PutDigits(r: array<Schar>, at: nat, b: nat, v0: nat, n: nat)
    requires at + n <= r.Length && 2 <= b <= 16 && v0 < Power(b, n)
    modifies r
    ensures r[..at] == old(r[..at])
    ensures forall i :: at <= i < at + n ==> 0 <= r[i] < b
    ensures Weigh(b, r[..at + n]) == old(Weigh(b, r[..at])) + Power(b, at) * v0
  {
    hide *;
    ghost var low := r[..at];
    var v: nat, j: nat := v0, 0;
    while j < n
      invariant j <= n && v < Power(b, n - j)
      invariant r[..at] == low
      invariant forall i :: at <= i < at + j ==> 0 <= r[i] < b
      invariant Weigh(b, r[..at + j]) + Power(b, at + j) * v == Weigh(b, low) + Power(b, at) * v0
    {
      ghost var q := r[..at + j];
      PutStep(b, q, v);
      r[at + j] := Digit(b, v);
      assert r[..at + j + 1] == q + [Digit(b, v)];
      PowerStep(b, n - j - 1);
      QuotientFits(b, v, Power(b, n - j - 1));
      v := Rest(b, v);
      j := j + 1;
    }
    PowerStep(b, 0);
    assert Power(b, at + n) * 0 == 0;
  }

  /** A scalar up to 2^255 leaves at most 32 bits in its top limb. */
  lemma {:induction false} TopLimb(s: Scalar)
    requires Val(s) <= Pow2(255)
    ensures s[4] < Pow2(32)
  {
    hide Val, RPow, Pow2;
    ValTake(s, 4);
    assert s[..5] == s;
    ValBounds(s[..4]);
    RPowIs(4);
    Pow2Add(224, 31);
    Pow2Step(31);
    if s[4] >= Pow2(32) {
      MulGap(Pow2(224), s[4], Pow2(31));
    }
  }

  lemma {:induction false} PowerOfSixteen(k: nat)
    ensures Power(16, k) == Pow2(4 * k)
  {
    if k > 0 {
      PowerOfSixteen(k - 1);
      PowerStep(16, k - 1);
      var n := 4 * k - 4;
      Pow2Step(n); Pow2Step(n + 1); Pow2Step(n + 2); Pow2Step(n + 3);
    }
  }

  lemma {:induction false} BasePower(b: nat, each: nat, last: nat, i: nat)
    requires (b == 2 && each == 56 && last == 32) || (b == 16 && each == 14 && last == 8)
    ensures Power(b, each * i) == Pow2(56 * i) && Power(b, last) == Pow2(32) && Power(b, each) == Pow2(56)
  {
    hide Power, Pow2;
    if b == 2 {
      PowerOfTwo(56 * i);
      PowerOfTwo(32);
      PowerOfTwo(56);
    } else {
      PowerOfSixteen(14 * i);
      PowerOfSixteen(8);
      PowerOfSixteen(14);
    }
  }

  /**
   * The expansion of a scalar of at most 2^255, in base 2 or 16: `each` digits for a limb of 56 bits and
   * `last` digits for the 32 bits of the top one.
   */
  method Expand(r: array<Schar>, s: Scalar, b: nat, each: nat, last: nat)
    requires (b == 2 && each == 56 && last == 32) || (b == 16 && each == 14 && last == 8)
    requires r.Length == 4 * each + last && Val(s) <= Pow2(255)
    modifies r
    ensures Weigh(b, r[..]) == Val(s) && forall k :: 0 <= k < r.Length ==> 0 <= r[k] < b
  {
    hide *;
    ghost var z: seq<int> := [];
    WeighZeros(b, z);
    ValEmpty();
    assert r[..0] == [] && s[..0] == [];
    RadixIsPow2();
    var at := 0;
    for i := 0 to 4
      invariant at == each * i
      invariant Weigh(b, r[..at]) == Val(s[..i])
      invariant forall k :: 0 <= k < at ==> 0 <= r[k] < b
    {
      BasePower(b, each, last, i);
      AtFits(each, i, last);
      ghost var q := r[..at];
      PutDigits(r, at, b, s[i], each);
      ValTake(s, i);
      RPowIs(i);
      assert forall k :: 0 <= k < at ==> r[k] == r[..at][k] == q[k];
      at := at + each;
    }
    TopLimb(s);
    ghost var q := r[..at];
    BasePower(b, each, last, 4);
    PutDigits(r, at, b, s[4], last);
    assert forall k :: 0 <= k < at ==> r[k] == r[..at][k] == q[k];
    ValTake(s, 4);
    RPowIs(4);
    assert r[..r.Length] == r[..] && s[..5] == s;
  }

  lemma AtFits(each: nat, i: nat, last: nat)
    requires i < 4
    ensures each * i + each <= 4 * each + last && each * i + each == each * (i + 1)
  {
    assert each * i <= each * 3;
  }
}
