/** Additions of points prepared for it: `niels` (with `z = 1`) and `pniels` forms. */
module NielsPoints {
  import opened Limbs
  import opened PrimeField
  import opened Field
  import opened FieldMul
  import opened Points

  /** The prepared form of `c`, with `k` for `2d`. */
  ghost predicate IsNiels(q: Niels, c: Coords, k: Residue) {
    && c.z == 1 && Rep(q.ysubx, FSub(c.y, c.x), LOOSE) && Rep(q.xaddy, FAdd(c.y, c.x), LOOSE)
    && Rep(q.t2d, FMul(c.t, k), LOOSE)
  }

  ghost predicate IsPniels(q: Pniels, c: Coords, k: Residue) {
    && Rep(q.ysubx, FSub(c.y, c.x), LOOSE) && Rep(q.xaddy, FAdd(c.y, c.x), LOOSE)
    && Rep(q.z, c.z, TIGHT) && Rep(q.t2d, FMul(c.t, k), LOOSE)
  }

  /** The inverse of a point. */
  function Opposite(c: Coords): Coords {
    Coords(FNeg(c.x), c.y, c.z, FNeg(c.t))
  }

  function Signed(c: Coords, signbit: nat): Coords {
    if signbit == 1 then Opposite(c) else c
  }

  lemma SignedIs(c: Coords, signbit: nat)
    requires signbit <= 1
    ensures var q := Signed(c, signbit);
            && FSub(q.y, q.x) == (if signbit == 1 then FAdd(c.y, c.x) else FSub(c.y, c.x))
            && FAdd(q.y, q.x) == (if signbit == 1 then FSub(c.y, c.x) else FAdd(c.y, c.x))
            && q.z == c.z
  {
    hide FAdd, FSub, FNeg;
    SignLaws(c.y, c.x);
  }

  /** The term `C` of the sum, for either sign. */
  lemma {:induction false} SignedTerm(c1: Coords, c2: Coords, k: Residue, signbit: nat, d: Residue)
    requires signbit <= 1
    ensures var c, w := FMul(c1.t, FMul(c2.t, k)), FMul(FMul(c1.t, Signed(c2, signbit).t), k);
            && FAdd(d, w) == (if signbit == 1 then FSub(d, c) else FAdd(d, c))
            && FSub(d, w) == (if signbit == 1 then FAdd(d, c) else FSub(d, c))
  {
    hide FAdd, FSub, FNeg, FMul;
    MulAssoc(c1.t, c2.t, k);
    if signbit == 1 {
      SignLaws(c1.t, c2.t);
      SignLaws(FMul(c1.t, c2.t), k);
      SignLaws(d, FMul(FMul(c1.t, c2.t), k));
    }
  }

  /** The products with the prepared `y - x` and `y + x`, exchanged for a subtraction. */
  method Cross(p: Ge, ysubx: Fe, xaddy: Fe, signbit: nat, ghost c1: Coords, ghost c2: Coords) returns (x: Fe, y: Fe)
    requires Is(p, c1) && signbit <= 1 && Rep(ysubx, FSub(c2.y, c2.x), LOOSE) && Rep(xaddy, FAdd(c2.y, c2.x), LOOSE)
    ensures var q := Signed(c2, signbit);
            var a, b := FMul(FSub(c1.y, c1.x), FSub(q.y, q.x)), FMul(FAdd(c1.y, c1.x), FAdd(q.y, q.x));
            Rep(x, FSub(b, a), LOOSE) && Rep(y, FAdd(b, a), LOOSE)
  {
    hide *;
    SignedIs(c2, signbit);
    Sizes();
    IsParts(p, c1);
    ghost var q := Signed(c2, signbit);
    var a := Minus(p.y, p.x, c1.y, TIGHT, c1.x, TIGHT);
    var b := Plus(p.y, p.x, c1.y, TIGHT, c1.x, TIGHT);
    var first, second := if signbit == 1 then xaddy else ysubx, if signbit == 1 then ysubx else xaddy;
    a := Times(a, first, FSub(c1.y, c1.x), TIGHT + 0x10_0000_0000_0000, FSub(q.y, q.x), LOOSE);
    b := Times(b, second, FAdd(c1.y, c1.x), TIGHT + TIGHT, FAdd(q.y, q.x), LOOSE);
    x, y := Ratio(b, a, FMul(FAdd(c1.y, c1.x), FAdd(q.y, q.x)), FMul(FSub(c1.y, c1.x), FSub(q.y, q.x)));
  }

  /** `d + c` and `d - c`, exchanged for a subtraction; `d` is carried, so two multiples of the prime are enough. */
  method Ends(d: Fe, c: Fe, signbit: nat, ghost vd: Residue, ghost vc: Residue) returns (z: Fe, t: Fe)
    requires Rep(d, vd, TIGHT) && Rep(c, vc, TIGHT) && signbit <= 1
    ensures Rep(z, if signbit == 1 then FSub(vd, vc) else FAdd(vd, vc), LOOSE)
    ensures Rep(t, if signbit == 1 then FAdd(vd, vc) else FSub(vd, vc), LOOSE)
  {
    hide *;
    Sizes();
    var down, up := Ratio(d, c, vd, vc);
    if signbit == 1 {
      z, t := down, up;
    } else {
      z, t := up, down;
    }
  }

  lemma NielsParts(q: Niels, c: Coords, k: Residue)
    requires IsNiels(q, c, k)
    ensures Rep(q.ysubx, FSub(c.y, c.x), LOOSE) && Rep(q.xaddy, FAdd(c.y, c.x), LOOSE)
      && Rep(q.t2d, FMul(c.t, k), LOOSE)
    ensures forall z: Residue :: FMul(z, c.z) == z
  {
    hide Rep, FSub, FAdd, FMul;
    forall z: Residue ensures FMul(z, c.z) == z {
      MulOne(z);
    }
  }

  lemma PnielsParts(q: Pniels, c: Coords, k: Residue)
    requires IsPniels(q, c, k)
    ensures Rep(q.ysubx, FSub(c.y, c.x), LOOSE) && Rep(q.xaddy, FAdd(c.y, c.x), LOOSE)
    ensures Rep(q.z, c.z, TIGHT) && Rep(q.t2d, FMul(c.t, k), LOOSE)
  {
    hide Rep;
  }

  /** `ge25519_nielsadd2_p1p1`: adds the prepared point, or subtracts it when `signbit` is 1. */
  method NielsAddP1p1(p: Ge, q: Niels, signbit: nat, ghost c1: Coords, ghost c2: Coords,
                      ghost k: Residue) returns (r: P1p1)
    requires Is(p, c1) && IsNiels(q, c2, k) && signbit <= 1
    ensures Between(r, AddParts(c1, Signed(c2, signbit), k))
  {
    hide *;
    Sizes();
    IsParts(p, c1);
    NielsParts(q, c2, k);
    SignedIs(c2, signbit);
    var x, y := Cross(p, q.ysubx, q.xaddy, signbit, c1, c2);
    var c := Times(p.t, q.t2d, c1.t, TIGHT, FMul(c2.t, k), LOOSE);
    var d := PlusReduced(p.z, p.z, c1.z, TIGHT, c1.z, TIGHT);
    var z, t := Ends(d, c, signbit, FAdd(c1.z, c1.z), FMul(c1.t, FMul(c2.t, k)));
    r := P1p1(x, y, z, t);
    SignedTerm(c1, c2, k, signbit, FAdd(c1.z, c1.z));
    AddPartsAre(c1, Signed(c2, signbit), k);
    BetweenBy(r, AddParts(c1, Signed(c2, signbit), k));
  }

  /** `ge25519_pnielsadd_p1p1` */
  method PnielsAddP1p1(p: Ge, q: Pniels, signbit: nat, ghost c1: Coords, ghost c2: Coords,
                       ghost k: Residue) returns (r: P1p1)
    requires Is(p, c1) && IsPniels(q, c2, k) && signbit <= 1
    ensures Between(r, AddParts(c1, Signed(c2, signbit), k))
  {
    hide *;
    Sizes();
    IsParts(p, c1);
    PnielsParts(q, c2, k);
    SignedIs(c2, signbit);
    var x, y := Cross(p, q.ysubx, q.xaddy, signbit, c1, c2);
    var c := Times(p.t, q.t2d, c1.t, TIGHT, FMul(c2.t, k), LOOSE);
    var d := Times(p.z, q.z, c1.z, TIGHT, c2.z, TIGHT);
    ghost var zz := FMul(c1.z, c2.z);
    d := PlusReduced(d, d, zz, TIGHT, zz, TIGHT);
    var z, t := Ends(d, c, signbit, FAdd(zz, zz), FMul(c1.t, FMul(c2.t, k)));
    r := P1p1(x, y, z, t);
    SignedTerm(c1, c2, k, signbit, FAdd(zz, zz));
    AddPartsAre(c1, Signed(c2, signbit), k);
    BetweenBy(r, AddParts(c1, Signed(c2, signbit), k));
  }

  lemma SignedZero(c: Coords)
    ensures Signed(c, 0) == c
  {
  }

  /** `ge25519_nielsadd2` */
  method NielsAdd2(p: Ge, q: Niels, ghost c1: Coords, ghost c2: Coords, ghost k: Residue) returns (r: Ge)
    requires Is(p, c1) && IsNiels(q, c2, k)
    ensures Is(r, AddFormula(c1, c2, k))
  {
    hide *;
    Sizes();
    IsParts(p, c1);
    NielsParts(q, c2, k);
    SignedZero(c2);
    var e, h := Cross(p, q.ysubx, q.xaddy, 0, c1, c2);
    var c := Times(p.t, q.t2d, c1.t, TIGHT, FMul(c2.t, k), LOOSE);
    var f := Plus(p.z, p.z, c1.z, TIGHT, c1.z, TIGHT);
    var g;
    g, f := WideEnds(f, c, FAdd(c1.z, c1.z), FMul(c1.t, FMul(c2.t, k)));
    SignedTerm(c1, c2, k, 0, FAdd(c1.z, c1.z));
    AddPartsAre(c1, c2, k);
    BetweenBy(P1p1(e, h, g, f), AddParts(c1, c2, k));
    r := ToFull(P1p1(e, h, g, f), AddParts(c1, c2, k));
  }

  /** `ge25519_full_to_pniels` */
  method FullToPniels(p: Ge, ec2d: Fe, ghost c: Coords, ghost k: Residue) returns (q: Pniels)
    requires Is(p, c) && Rep(ec2d, k, TIGHT)
    ensures IsPniels(q, c, k)
  {
    hide *;
    Sizes();
    IsParts(p, c);
    var ysubx, xaddy := Ratio(p.y, p.x, c.y, c.x);
    var t2d := Times(p.t, ec2d, c.t, TIGHT, k, TIGHT);
    RepWiden(t2d, FMul(c.t, k), TIGHT, LOOSE);
    q := Pniels(ysubx, xaddy, p.z, t2d);
    PnielsBy(q, c, k);
  }

  lemma PnielsBy(q: Pniels, c: Coords, k: Residue)
    requires Rep(q.ysubx, FSub(c.y, c.x), LOOSE) && Rep(q.xaddy, FAdd(c.y, c.x), LOOSE)
    requires Rep(q.z, c.z, TIGHT) && Rep(q.t2d, FMul(c.t, k), LOOSE)
    ensures IsPniels(q, c, k)
  {
    hide Rep;
  }

  /** `ge25519_pnielsadd`: the sum of a point and a prepared point, prepared again. */
  method PnielsAdd(p: Ge, q: Pniels, ec2d: Fe, ghost c1: Coords, ghost c2: Coords, ghost k: Residue) returns (r: Pniels)
    requires Is(p, c1) && IsPniels(q, c2, k) && Rep(ec2d, k, TIGHT)
    ensures IsPniels(r, AddFormula(c1, c2, k), k)
  {
    hide *;
    Sizes();
    IsParts(p, c1);
    PnielsParts(q, c2, k);
    SignedZero(c2);
    var x, y := Cross(p, q.ysubx, q.xaddy, 0, c1, c2);
    var c := Times(p.t, q.t2d, c1.t, TIGHT, FMul(c2.t, k), LOOSE);
    var d := Times(p.z, q.z, c1.z, TIGHT, c2.z, TIGHT);
    ghost var zz := FMul(c1.z, c2.z);
    d := Plus(d, d, zz, TIGHT, zz, TIGHT);
    var z, t := WideEnds(d, c, FAdd(zz, zz), FMul(c1.t, FMul(c2.t, k)));
    SignedTerm(c1, c2, k, 0, FAdd(zz, zz));
    AddPartsAre(c1, c2, k);
    BetweenBy(P1p1(x, y, z, t), AddParts(c1, c2, k));
    var full := ToFull(P1p1(x, y, z, t), AddParts(c1, c2, k));
    r := FullToPniels(full, ec2d, AddFormula(c1, c2, k), k);
  }
}
