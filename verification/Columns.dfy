/** Columns of a product: 128-bit sums of limb products, cut into limbs at an offset. */
module Columns {
  import opened Binary
  import opened Words
  import opened Arith
  import opened Limbs

  type u128 = x: int | 0 <= x < 0x1_0000_0000_0000_0000_0000_0000_0000_0000

  /** The cut lies at bit 40 or at bit 24 of a limb: `p` is the weight below it and `t` what remains of the limb. */
  predicate Cut(p: nat, t: nat) {
    (p == 0x100_0000_0000 && t == 0x1_0000) || (p == 0x100_0000 && t == 0x1_0000_0000)
  }

  /** `c >> 56` */
  function High(c: nat): nat {
    c / 0x100_0000_0000_0000
  }

  /** `(lo128(c) >> k) & (2^(56-k) - 1)` */
  function Upper(c: nat, p: nat, t: nat): nat
    requires Cut(p, t)
  {
    ((c % WORD) / p) % t
  }

  /** `(lo128(c) << (56-k)) & (2^56 - 1)` */
  function Lower(c: nat, p: nat, t: nat): nat
    requires Cut(p, t)
  {
    (((c % WORD) * t) % WORD) % 0x100_0000_0000_0000
  }

  /** The bits of a column below the cut. */
  function Below(c: nat, p: nat): nat
    requires p > 0
  {
    (c % 0x100_0000_0000_0000) % p
  }

  lemma {:induction false} WordOf(f: nat, d: nat)
    requires d < 0x100_0000_0000_0000
    ensures (0x100_0000_0000_0000 * f + d) % WORD == 0x100_0000_0000_0000 * (f % 256) + d
  {
    DivUnique(0x100_0000_0000_0000 * f + d, 0x1_0000_0000_0000_0000, f / 256, 0x100_0000_0000_0000 * (f % 256) + d);
  }

  /** A word of the form `R * e + p * h + l`, shifted right and masked. */
  lemma {:induction false} UpperOf(e: nat, h: nat, l: nat, p: nat, t: nat)
    requires Cut(p, t) && h < t && l < p
    ensures ((0x100_0000_0000_0000 * e + p * h + l) / p) % t == h
  {
    DivUnique(0x100_0000_0000_0000 * e + p * h + l, p, t * e + h, l);
    DivUnique(t * e + h, t, e, h);
  }

  /** The same word, shifted left and masked. */
  lemma {:induction false} LowerOf(e: nat, h: nat, l: nat, p: nat, t: nat)
    requires Cut(p, t) && h < t && l < p
    ensures (((0x100_0000_0000_0000 * e + p * h + l) * t) % WORD) % 0x100_0000_0000_0000 == t * l
  {
    var d := t * e + h;
    var n := (0x100_0000_0000_0000 * e + p * h + l) * t;
    assert n == 0x100_0000_0000_0000 * d + t * l;
    WordOf(d, t * l);
    DivUnique(0x100_0000_0000_0000 * (d % 256) + t * l, 0x100_0000_0000_0000, d % 256, t * l);
  }

  lemma {:induction false} LimbParts(d: nat, p: nat, t: nat)
    requires Cut(p, t) && d < 0x100_0000_0000_0000
    ensures d == p * (d / p) + d % p && d / p < t && d % p < p
  {
  }

  /** What a column is made of. */
  lemma {:induction false} ColumnParts(c: nat, p: nat, t: nat)
    requires Cut(p, t)
    ensures c == 0x100_0000_0000_0000 * High(c) + p * Upper(c, p, t) + Below(c, p)
    ensures Upper(c, p, t) < t && Below(c, p) < p && Lower(c, p, t) == t * Below(c, p)
  {
    var f, d := High(c), c % 0x100_0000_0000_0000;
    assert c == 0x100_0000_0000_0000 * f + d;
    var h, l := d / p, d % p;
    LimbParts(d, p, t);
    WordOf(f, d);
    UpperOf(f % 256, h, l, p, t);
    LowerOf(f % 256, h, l, p, t);
  }

  lemma CutPower(p: nat, t: nat, k: nat)
    requires Cut(p, t) && k == (if t == 0x1_0000 then 16 else 32)
    ensures Pow2(k) == t
  {
    hide Pow2;
    Pow2Values();
  }

  /** The limb that starts at the cut of one column and ends at the cut of the next. */
  lemma {:induction false} LimbJoins(c: nat, n: nat, p: nat, t: nat)
    requires Cut(p, t)
    ensures Or(Upper(c, p, t), t * n) == Upper(c, p, t) + t * n
    ensures Or(Upper(c, p, t), Lower(n, p, t)) == Upper(c, p, t) + t * Below(n, p) < 0x100_0000_0000_0000
  {
    var k := if t == 0x1_0000 then 16 else 32;
    CutPower(p, t, k);
    ColumnParts(c, p, t);
    ColumnParts(n, p, t);
    hide Upper, Lower, Below, Or, Pow2;
    OrJoins(Upper(c, p, t), Below(n, p), k);
    OrJoins(Upper(c, p, t), n, k);
  }
}
