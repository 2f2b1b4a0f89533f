/** `curve25519_recip` and `curve25519_pow_two252m3`: two long powers by few multiplications. */
module FieldChains {
  import opened Binary
  import opened Limbs
  import opened PrimeField
  import opened Field
  import opened FieldMul

  /** `a` holds `x^n`. */
  ghost predicate Holds(a: Fe, x: int, n: nat) {
    Cong(Eval(a), Exp(x, n)) && Bounded(a, LOOSE)
  }

  lemma {:induction false} ExpExp(x: int, m: nat, n: nat)
    ensures Exp(Exp(x, m), n) == Exp(x, m * n)
  {
    hide *;
    ExpOne(x);
    ExpOne(Exp(x, m));
    if n > 0 {
      ExpExp(x, m, n - 1);
      ExpAdd(Exp(x, m), 1, n - 1);
      ExpAdd(x, m, m * (n - 1));
      assert m * n == m + m * (n - 1);
    }
  }

  lemma {:induction false} CongExp(a: int, b: int, n: nat)
    requires Cong(a, b)
    ensures Cong(Exp(a, n), Exp(b, n))
  {
    hide *;
    ExpOne(a);
    ExpOne(b);
    CongRefl(1);
    if n > 0 {
      CongExp(a, b, n - 1);
      ExpAdd(a, 1, n - 1);
      ExpAdd(b, 1, n - 1);
      CongMul(a, b, Exp(a, n - 1), Exp(b, n - 1));
    }
  }

  method Squared(a: Fe, count: nat, ghost x: int, ghost n: nat) returns (out: Fe)
    requires Holds(a, x, n) && count >= 1
    ensures Holds(out, x, n * Pow2(count))
  {
    out := SquareTimes(a, count);
    TightIsLoose(out);
    hide Cong, Eval, Exp, Bounded, Pow2;
    ghost var k := Pow2(count);
    CongExp(Eval(a), Exp(x, n), k);
    ExpExp(x, n, k);
    CongTrans(Eval(out), Exp(Eval(a), k), Exp(x, n * k));
  }

  method Product(a: Fe, b: Fe, ghost x: int, ghost m: nat, ghost n: nat) returns (out: Fe)
    requires Holds(a, x, m) && Holds(b, x, n)
    ensures Holds(out, x, m + n)
  {
    out := Mul(a, b);
    TightIsLoose(out);
    hide Cong, Eval, Exp, Bounded;
    CongMul(Eval(a), Exp(x, m), Eval(b), Exp(x, n));
    ExpAdd(x, m, n);
    CongTrans(Eval(out), Eval(a) * Eval(b), Exp(x, m + n));
  }

  /** The exponent `2^k - 1`. */
  function Ones(k: nat): nat {
    Pow2(k) - 1
  }

  lemma {:induction false} OnesJoin(j: nat, k: nat)
    ensures Ones(j) * Pow2(k) + Ones(k) == Ones(j + k)
  {
    hide Pow2;
    Pow2Add(j, k);
    Shrunk(Pow2(j), Pow2(k));
  }

  lemma Shrunk(a: int, b: int)
    ensures (a - 1) * b == a * b - b
  {
  }

  /** `k` squarings and a product put `j` ones in front of `k`. */
  method Join(a: Fe, b: Fe, j: nat, k: nat, ghost x: int) returns (out: Fe)
    requires Holds(a, x, Ones(j)) && Holds(b, x, Ones(k)) && k >= 1
    ensures Holds(out, x, Ones(j + k))
  {
    hide *;
    var t := Squared(a, k, x, Ones(j));
    out := Product(t, b, x, Ones(j) * Pow2(k), Ones(k));
    OnesJoin(j, k);
  }

  /** `curve25519_pow_two5mtwo0_two250mtwo0` */
  method Pow250(b5: Fe, ghost x: int) returns (b: Fe)
    requires Holds(b5, x, Ones(5))
    ensures Holds(b, x, Ones(250))
  {
    hide *;
    var c, t;
    b := Join(b5, b5, 5, 5, x);
    c := Join(b, b, 10, 10, x);
    t := Join(c, c, 20, 20, x);
    b := Join(t, b, 40, 10, x);
    c := Join(b, b, 50, 50, x);
    t := Join(c, c, 100, 100, x);
    b := Join(t, b, 200, 50, x);
  }

  lemma HoldsOnce(z: Fe)
    requires Bounded(z, LOOSE)
    ensures Holds(z, Eval(z), 1)
  {
    ExpOne(Eval(z));
  }

  lemma SmallPowers()
    ensures Pow2(1) == 2 && Pow2(2) == 4 && Pow2(5) == 32 && Ones(5) == 31
  {
  }

  /** The powers 11 and 31 that both chains begin with. */
  method Begin(z: Fe) returns (a: Fe, b: Fe)
    requires Bounded(z, LOOSE)
    ensures Holds(a, Eval(z), 11) && Holds(b, Eval(z), 31)
  {
    hide *;
    ghost var x := Eval(z);
    HoldsOnce(z);
    SmallPowers();
    a := Squared(z, 1, x, 1);
    var t := Squared(a, 2, x, 2);
    b := Product(t, z, x, 8, 1);
    a := Product(b, a, x, 9, 2);
    t := Squared(a, 1, x, 11);
    b := Product(t, b, x, 22, 9);
  }

  /** The exponents at the end of the chains. */
  lemma {:induction false} LastExponents()
    ensures Ones(250) * Pow2(5) + 11 == Pow2(255) - 21 && Ones(250) * Pow2(2) + 1 == Pow2(252) - 3
  {
    hide *;
    SmallPowers();
    OnesJoin(250, 5);
    OnesJoin(250, 2);
    OnesAre(255);
    OnesAre(252);
    OnesAre(2);
  }

  lemma OnesAre(k: nat)
    ensures Ones(k) == Pow2(k) - 1
  {
  }

  /** `curve25519_recip`: the power `p - 2`. */
  method Recip(z: Fe) returns (out: Fe)
    requires Bounded(z, LOOSE)
    ensures Holds(out, Eval(z), Pow2(255) - 21)
  {
    hide *;
    ghost var x := Eval(z);
    SmallPowers();
    var a, b := Begin(z);
    b := Pow250(b, x);
    b := Squared(b, 5, x, Ones(250));
    LastExponents();
    out := Product(b, a, x, Ones(250) * Pow2(5), 11);
  }

  /** `curve25519_pow_two252m3`: the power `(p - 5) / 8`. */
  method PowTwo252m3(z: Fe) returns (out: Fe)
    requires Bounded(z, LOOSE)
    ensures Holds(out, Eval(z), Pow2(252) - 3)
  {
    hide *;
    ghost var x := Eval(z);
    SmallPowers();
    HoldsOnce(z);
    var a, b := Begin(z);
    b := Pow250(b, x);
    b := Squared(b, 2, x, Ones(250));
    LastExponents();
    out := Product(b, z, x, Ones(250) * Pow2(2), 1);
  }
}
