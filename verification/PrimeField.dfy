/** Integers modulo 2^255 - 19: what it means to be equal there. */
module PrimeField {
  import opened Arith

  const P: nat := 0x7fffffffffffffff_ffffffffffffffff_ffffffffffffffff_ffffffffffffffed

  /** Equal modulo `P`. */
  predicate Cong(x: int, y: int) {
    x % P == y % P
  }

  lemma {:induction false} CongBy(x: int, y: int, k: int)
    requires x == y + P * k
    ensures Cong(x, y)
  {
    var q, r := y / P, y % P;
    assert y == P * q + r;
    hide P;
    Gather(P, q, k);
    DivUnique(x, P, q + k, r);
  }

  lemma Gather(m: int, q: int, k: int)
    ensures m * q + m * k == m * (q + k)
  {
  }

  lemma {:induction false} CongOf(x: int, y: int) returns (k: int)
    requires Cong(x, y)
    ensures x == y + P * k
  {
    k := x / P - y / P;
    assert x == P * (x / P) + x % P && y == P * (y / P) + y % P;
    hide P;
    Gather(P, y / P, k);
  }

  lemma CongRefl(x: int)
    ensures Cong(x, x)
  {
  }

  lemma CongFlip(x: int, y: int)
    requires Cong(x, y)
    ensures Cong(y, x)
  {
  }

  lemma CongTrans(x: int, y: int, z: int)
    requires Cong(x, y) && Cong(y, z)
    ensures Cong(x, z) && Cong(z, x)
  {
  }

  lemma {:induction false} CongAdd(a: int, b: int, c: int, d: int)
    requires Cong(a, b) && Cong(c, d)
    ensures Cong(a + c, b + d) && Cong(a - c, b - d)
  {
    hide *;
    var k := CongOf(a, b);
    var m := CongOf(c, d);
    Gather(P, k, m);
    Gather(P, k, -m);
    Negate(P, m);
    CongBy(a + c, b + d, k + m);
    CongBy(a - c, b - d, k - m);
  }

  lemma Negate(m: int, k: int)
    ensures m * -k == -(m * k)
  {
  }

  lemma {:induction false} CongMul(a: int, b: int, c: int, d: int)
    requires Cong(a, b) && Cong(c, d)
    ensures Cong(a * c, b * d)
  {
    hide *;
    var k := CongOf(a, b);
    var m := CongOf(c, d);
    Expanded(b, d, P, k, m);
    CongBy(a * c, b * d, b * m + k * c);
  }

  lemma Expanded(b: int, d: int, p: int, k: int, m: int)
    ensures (b + p * k) * (d + p * m) == b * d + p * (b * m + k * (d + p * m))
  {
    var c := d + p * m;
    assert (b + p * k) * c == b * c + (p * k) * c;
    assert b * c == b * d + b * (p * m);
    assert b * (p * m) == p * (b * m) && (p * k) * c == p * (k * c);
    assert p * (b * m + k * c) == p * (b * m) + p * (k * c);
  }

  // ---------- the field ----------

  /** The numbers below the prime. */
  type Residue = x: nat | x < P witness 0

  /** The product as repeated addition. */
  function Product(x: nat, n: nat): nat {
    if n == 0 then 0 else x + Product(x, n - 1)
  }

  function FAdd(x: Residue, y: Residue): Residue {
    (x + y) as int % P
  }

  function FSub(x: Residue, y: Residue): Residue {
    (x as int - y as int) % P
  }

  function FNeg(x: Residue): Residue {
    (0 - x as int) % P
  }

  function FMul(x: Residue, y: Residue): Residue {
    Product(x, y) % P
  }

  lemma {:induction false} ProductIs(x: nat, n: nat)
    ensures Product(x, n) == x * n
  {
    if n > 0 {
      ProductIs(x, n - 1);
    }
  }

  lemma {:induction false} ModCong(x: int)
    ensures Cong(x % P, x)
  {
    var q, r := x / P, x % P;
    assert x == P * q + r;
    hide *;
    CongBy(x, r, q);
    CongFlip(x, r);
  }

  lemma ResidueEq(x: Residue, y: Residue)
    requires Cong(x, y)
    ensures x == y
  {
    assert x < P && y < P;
    DivUnique(x, P, 0, x);
    DivUnique(y, P, 0, y);
  }

  lemma OpsAre(x: Residue, y: Residue)
    ensures FAdd(x, y) == (x as int + y as int) % P && FSub(x, y) == (x as int - y as int) % P
    ensures FNeg(x) == (0 - x as int) % P && FMul(x, y) == (x as int * y as int) % P
  {
    ProductIs(x, y);
    hide Product;
  }

  // Each operation is the one on integers, modulo the prime.
  lemma {:induction false} AddCong(x: Residue, u: int, y: Residue, v: int)
    requires Cong(x, u) && Cong(y, v)
    ensures Cong(FAdd(x, y), u + v) && Cong(FSub(x, y), u - v) && Cong(FNeg(x), -u)
  {
    hide *;
    OpsAre(x, y);
    var a: int, b: int := x, y;
    ModCong(a + b);
    ModCong(a - b);
    ModCong(0 - a);
    CongAdd(a, u, b, v);
    CongRefl(0);
    CongAdd(0, 0, a, u);
    CongTrans(FAdd(x, y), a + b, u + v);
    CongTrans(FSub(x, y), a - b, u - v);
    CongTrans(FNeg(x), 0 - a, 0 - u);
  }

  lemma {:induction false} MulCong(x: Residue, u: int, y: Residue, v: int)
    requires Cong(x, u) && Cong(y, v)
    ensures Cong(FMul(x, y), u * v)
  {
    hide *;
    OpsAre(x, y);
    var a: int, b: int := x, y;
    ModCong(a * b);
    CongMul(a, u, b, v);
    CongTrans(FMul(x, y), a * b, u * v);
  }

  // ---------- laws of the field ----------

  lemma {:induction false} MulAssoc(x: Residue, y: Residue, z: Residue)
    ensures FMul(x, FMul(y, z)) == FMul(FMul(x, y), z) && FMul(x, y) == FMul(y, x)
  {
    hide *;
    CongRefl(x); CongRefl(y); CongRefl(z);
    MulCong(x, x, y, y);
    MulCong(y, y, x, x);
    MulCong(y, y, z, z);
    MulCong(x, x, FMul(y, z), y as int * z as int);
    MulCong(FMul(x, y), x as int * y as int, z, z);
    TripleProduct(x, y, z);
    Meet(FMul(x, FMul(y, z)), FMul(FMul(x, y), z), x as int * (y as int * z as int));
    Meet(FMul(x, y), FMul(y, x), x as int * y as int);
  }

  lemma MulOne(x: Residue)
    ensures FMul(x, 1) == x
  {
    ProductIs(x, 1);
    DivUnique(x, P, 0, x);
    hide Product;
  }

  lemma TripleProduct(x: int, y: int, z: int)
    ensures x * (y * z) == (x * y) * z && x * y == y * x
  {
  }

  /** Residues congruent to one integer are equal. */
  lemma Meet(x: Residue, y: Residue, n: int)
    requires Cong(x, n) && Cong(y, n)
    ensures x == y
  {
    hide *;
    CongFlip(y, n);
    CongTrans(x, n, y);
    ResidueEq(x, y);
  }

  lemma {:induction false} SignLaws(x: Residue, y: Residue)
    ensures FSub(x, FNeg(y)) == FAdd(x, y) && FAdd(x, FNeg(y)) == FSub(x, y)
    ensures FMul(FNeg(x), y) == FNeg(FMul(x, y)) && FMul(x, FNeg(y)) == FNeg(FMul(x, y))
    ensures FNeg(FSub(x, y)) == FSub(y, x)
  {
    hide *;
    var a: int, b: int := x, y;
    CongRefl(a);
    CongRefl(b);
    AddCong(x, a, y, b);
    AddCong(y, b, x, a);
    AddCong(x, a, FNeg(y), -b);
    AddCong(FSub(x, y), a - b, x, a);
    MulCong(x, a, y, b);
    AddCong(FMul(x, y), a * b, x, a);
    MulCong(FNeg(x), -a, y, b);
    MulCong(x, a, FNeg(y), -b);
    Signs(a, b);
    Meet(FSub(x, FNeg(y)), FAdd(x, y), a + b);
    Meet(FAdd(x, FNeg(y)), FSub(x, y), a - b);
    Meet(FMul(FNeg(x), y), FNeg(FMul(x, y)), -(a * b));
    Meet(FMul(x, FNeg(y)), FNeg(FMul(x, y)), -(a * b));
    Meet(FNeg(FSub(x, y)), FSub(y, x), b - a);
  }

  lemma Signs(a: int, b: int)
    ensures -a * b == -(a * b) && a * -b == -(a * b)
  {
  }
}
