/** Curve points in extended coordinates: the additions and doublings of `ed25519-donna-impl-base.h`. */
module Points {
  import opened Limbs
  import opened PrimeField
  import opened Field
  import opened FieldMul

  // ---------- the formulas ----------

  /** Extended coordinates in the field. */
  datatype Coords = Coords(x: Residue, y: Residue, z: Residue, t: Residue)

  /** What an addition or doubling has before its last products: `E`, `H`, `G` and `F` of the standard. */
  datatype Parts = Parts(e: Residue, h: Residue, g: Residue, f: Residue)

  function Completed(s: Parts): Coords {
    Coords(FMul(s.e, s.f), FMul(s.h, s.g), FMul(s.g, s.f), FMul(s.e, s.h))
  }

  function AddParts(p: Coords, q: Coords, k: Residue): Parts {
    var a := FMul(FSub(p.y, p.x), FSub(q.y, q.x));
    var b := FMul(FAdd(p.y, p.x), FAdd(q.y, q.x));
    var c := FMul(FMul(p.t, q.t), k);
    var z := FMul(p.z, q.z);
    var d := FAdd(z, z);
    Parts(FSub(b, a), FAdd(b, a), FAdd(d, c), FSub(d, c))
  }

  /** The addition of section 5.1.4 of RFC 8032, with `k` for the constant `2d`. */
  function AddFormula(p: Coords, q: Coords, k: Residue): Coords {
    Completed(AddParts(p, q, k))
  }

  function DoubleParts(p: Coords): Parts {
    var a := FMul(p.x, p.x);
    var b := FMul(p.y, p.y);
    var zz := FMul(p.z, p.z);
    var c := FAdd(zz, zz);
    var h := FAdd(b, a);
    var s := FAdd(p.x, p.y);
    var e := FSub(h, FMul(s, s));
    var g := FSub(a, b);
    Parts(e, h, g, FAdd(c, g))
  }

  /** The doubling of section 5.1.4 of RFC 8032. */
  function DoubleFormula(p: Coords): Coords {
    Completed(DoubleParts(p))
  }

  function Negated(p: Coords): Coords {
    Coords(FNeg(p.x), FNeg(p.y), FNeg(p.z), FNeg(p.t))
  }

  // ---------- field operations with their values ----------

  /** `a` stands for the field element `x`, with limbs below `m`. */
  ghost predicate Rep(a: Fe, x: Residue, m: int) {
    Cong(Eval(a), x) && Bounded(a, m)
  }

  lemma RepMeets(a: Fe, m: int, x: Residue, n: int)
    requires Cong(Eval(a), n) && Cong(x, n) && Bounded(a, m)
    ensures Rep(a, x, m)
  {
    hide Cong, Eval, Bounded;
    CongFlip(x, n);
    CongTrans(Eval(a), n, x);
  }

  lemma RepIs(a: Fe, x: Residue, m: int)
    requires Rep(a, x, m)
    ensures Cong(Eval(a), x) && Cong(x, Eval(a)) && Bounded(a, m)
  {
    hide Cong, Eval, Bounded;
    CongFlip(Eval(a), x);
  }

  method Plus(a: Fe, b: Fe, ghost x: Residue, ghost m: int, ghost y: Residue, ghost n: int) returns (out: Fe)
    requires Rep(a, x, m) && Rep(b, y, n) && m <= LOOSE && n <= LOOSE
    ensures Rep(out, FAdd(x, y), m + n)
  {
    hide *;
    Sizes();
    RepIs(a, x, m);
    RepIs(b, y, n);
    out := Add(a, b, m, n);
    AddCong(x, Eval(a), y, Eval(b));
    CongRefl(Eval(out));
    RepMeets(out, m + n, FAdd(x, y), Eval(out));
  }

  method Minus(a: Fe, b: Fe, ghost x: Residue, ghost m: int, ghost y: Residue, ghost n: int) returns (out: Fe)
    requires Rep(a, x, m) && Rep(b, y, n) && m <= LOOSE && n <= 0xf_ffff_ffff_ffda
    ensures Rep(out, FSub(x, y), m + 0x10_0000_0000_0000)
  {
    hide *;
    RepIs(a, x, m);
    RepIs(b, y, n);
    Widen(b, n, 0xf_ffff_ffff_ffda);
    out := Sub(a, b, m);
    AddCong(x, Eval(a), y, Eval(b));
    RepMeets(out, m + 0x10_0000_0000_0000, FSub(x, y), Eval(a) - Eval(b));
  }

  method MinusAfterBasic(a: Fe, b: Fe, ghost x: Residue, ghost m: int, ghost y: Residue, ghost n: int) returns (out: Fe)
    requires Rep(a, x, m) && Rep(b, y, n) && m <= LOOSE && n <= 0x1f_ffff_ffff_ffb4
    ensures Rep(out, FSub(x, y), m + 0x20_0000_0000_0000)
  {
    hide *;
    RepIs(a, x, m);
    RepIs(b, y, n);
    Widen(b, n, 0x1f_ffff_ffff_ffb4);
    out := SubAfterBasic(a, b, m);
    AddCong(x, Eval(a), y, Eval(b));
    RepMeets(out, m + 0x20_0000_0000_0000, FSub(x, y), Eval(a) - Eval(b));
  }

  method Times(a: Fe, b: Fe, ghost x: Residue, ghost m: int, ghost y: Residue, ghost n: int) returns (out: Fe)
    requires Rep(a, x, m) && Rep(b, y, n) && m <= LOOSE && n <= LOOSE
    ensures Rep(out, FMul(x, y), TIGHT)
  {
    hide *;
    RepIs(a, x, m);
    RepIs(b, y, n);
    Widen(a, m, LOOSE);
    Widen(b, n, LOOSE);
    out := Mul(a, b);
    MulCong(x, Eval(a), y, Eval(b));
    RepMeets(out, TIGHT, FMul(x, y), Eval(a) * Eval(b));
  }

  method Squared(a: Fe, ghost x: Residue, ghost m: int) returns (out: Fe)
    requires Rep(a, x, m) && m <= LOOSE
    ensures Rep(out, FMul(x, x), TIGHT)
  {
    hide *;
    RepIs(a, x, m);
    Widen(a, m, LOOSE);
    out := Square(a);
    MulCong(x, Eval(a), x, Eval(a));
    RepMeets(out, TIGHT, FMul(x, x), Eval(a) * Eval(a));
  }

  method PlusReduced(a: Fe, b: Fe, ghost x: Residue, ghost m: int, ghost y: Residue, ghost n: int) returns (out: Fe)
    requires Rep(a, x, m) && Rep(b, y, n) && m <= LOOSE && n <= LOOSE
    ensures Rep(out, FAdd(x, y), TIGHT)
  {
    hide *;
    RepIs(a, x, m);
    RepIs(b, y, n);
    Widen(a, m, LOOSE);
    Widen(b, n, LOOSE);
    out := AddReduce(a, b);
    AddCong(x, Eval(a), y, Eval(b));
    RepMeets(out, TIGHT, FAdd(x, y), Eval(a) + Eval(b));
  }

  lemma RepWiden(a: Fe, x: Residue, m: int, n: int)
    requires Rep(a, x, m) && m <= n
    ensures Rep(a, x, n)
  {
    hide Cong, Eval;
  }

  lemma Sizes()
    ensures TIGHT == 0x8_0000_0000_8000 && LOOSE == 0x40_0000_0000_0000
  {
  }

  // ---------- points ----------

  datatype Ge = Ge(x: Fe, y: Fe, z: Fe, t: Fe)

  /** A sum before the last products. */
  datatype P1p1 = P1p1(x: Fe, y: Fe, z: Fe, t: Fe)

  datatype Niels = Niels(ysubx: Fe, xaddy: Fe, t2d: Fe)

  datatype Pniels = Pniels(ysubx: Fe, xaddy: Fe, z: Fe, t2d: Fe)

  /** Product-bounded coordinates that stand for `c`. */
  ghost predicate Is(p: Ge, c: Coords) {
    Rep(p.x, c.x, TIGHT) && Rep(p.y, c.y, TIGHT) && Rep(p.z, c.z, TIGHT) && Rep(p.t, c.t, TIGHT)
  }

  /** The same, without the fourth coordinate. */
  ghost predicate IsPartial(p: Ge, c: Coords) {
    Rep(p.x, c.x, TIGHT) && Rep(p.y, c.y, TIGHT) && Rep(p.z, c.z, TIGHT)
  }

  ghost predicate Between(p: P1p1, s: Parts) {
    Rep(p.x, s.e, LOOSE) && Rep(p.y, s.h, LOOSE) && Rep(p.z, s.g, LOOSE) && Rep(p.t, s.f, LOOSE)
  }

  /** `ge25519_p1p1_to_full` */
  method ToFull(p: P1p1, ghost s: Parts) returns (r: Ge)
    requires Between(p, s)
    ensures Is(r, Completed(s))
  {
    hide Rep, TIGHT, LOOSE, FMul;
    var x := Times(p.x, p.t, s.e, LOOSE, s.f, LOOSE);
    var y := Times(p.y, p.z, s.h, LOOSE, s.g, LOOSE);
    var z := Times(p.z, p.t, s.g, LOOSE, s.f, LOOSE);
    var t := Times(p.x, p.y, s.e, LOOSE, s.h, LOOSE);
    r := Ge(x, y, z, t);
  }

  /** `ge25519_p1p1_to_partial`: leaves the fourth coordinate of the destination as it was. */
  method ToPartial(p: P1p1, before: Fe, ghost s: Parts) returns (r: Ge)
    requires Between(p, s)
    ensures IsPartial(r, Completed(s)) && r.t == before
  {
    hide Rep, TIGHT, LOOSE, FMul;
    var x := Times(p.x, p.t, s.e, LOOSE, s.f, LOOSE);
    var y := Times(p.y, p.z, s.h, LOOSE, s.g, LOOSE);
    var z := Times(p.z, p.t, s.g, LOOSE, s.f, LOOSE);
    r := Ge(x, y, z, before);
  }

  lemma BetweenBy(p: P1p1, s: Parts)
    requires Rep(p.x, s.e, LOOSE) && Rep(p.y, s.h, LOOSE) && Rep(p.z, s.g, LOOSE) && Rep(p.t, s.f, LOOSE)
    ensures Between(p, s)
  {
    hide Rep;
  }

  lemma IsParts(p: Ge, c: Coords)
    requires Is(p, c)
    ensures Rep(p.x, c.x, TIGHT) && Rep(p.y, c.y, TIGHT) && Rep(p.z, c.z, TIGHT) && Rep(p.t, c.t, TIGHT)
  {
    hide Rep;
  }

  // ---------- addition ----------

  lemma AddPartsAre(p: Coords, q: Coords, k: Residue)
    ensures var a := FMul(FSub(p.y, p.x), FSub(q.y, q.x)); var b := FMul(FAdd(p.y, p.x), FAdd(q.y, q.x));
            var c := FMul(FMul(p.t, q.t), k); var z := FMul(p.z, q.z); var d := FAdd(z, z);
            AddParts(p, q, k) == Parts(FSub(b, a), FAdd(b, a), FAdd(d, c), FSub(d, c))
    ensures AddFormula(p, q, k) == Completed(AddParts(p, q, k))
  {
    hide FAdd, FSub, FMul, Completed;
  }

  /** `ge25519_add_p1p1`, with the constant `2d` in `ec2d`. */
  method AddP1p1(p: Ge, q: Ge, ec2d: Fe, ghost c1: Coords, ghost c2: Coords, ghost k: Residue) returns (r: P1p1)
    requires Is(p, c1) && Is(q, c2) && Rep(ec2d, k, TIGHT)
    ensures Between(r, AddParts(c1, c2, k))
  {
    hide *;
    Sizes();
    IsParts(p, c1);
    IsParts(q, c2);
    AddPartsAre(c1, c2, k);
    var a := Minus(p.y, p.x, c1.y, TIGHT, c1.x, TIGHT);
    var b := Plus(p.y, p.x, c1.y, TIGHT, c1.x, TIGHT);
    var t := Minus(q.y, q.x, c2.y, TIGHT, c2.x, TIGHT);
    var u := Plus(q.y, q.x, c2.y, TIGHT, c2.x, TIGHT);
    a := Times(a, t, FSub(c1.y, c1.x), TIGHT + 0x10_0000_0000_0000, FSub(c2.y, c2.x), TIGHT + 0x10_0000_0000_0000);
    b := Times(b, u, FAdd(c1.y, c1.x), TIGHT + TIGHT, FAdd(c2.y, c2.x), TIGHT + TIGHT);
    var c := Times(p.t, q.t, c1.t, TIGHT, c2.t, TIGHT);
    c := Times(c, ec2d, FMul(c1.t, c2.t), TIGHT, k, TIGHT);
    var d := Times(p.z, q.z, c1.z, TIGHT, c2.z, TIGHT);
    ghost var zz := FMul(c1.z, c2.z);
    d := Plus(d, d, zz, TIGHT, zz, TIGHT);
    ghost var va, vb := FMul(FSub(c1.y, c1.x), FSub(c2.y, c2.x)), FMul(FAdd(c1.y, c1.x), FAdd(c2.y, c2.x));
    var x, y := Ratio(b, a, vb, va);
    var z, w := WideEnds(d, c, FAdd(zz, zz), FMul(FMul(c1.t, c2.t), k));
    r := P1p1(x, y, z, w);
    BetweenBy(r, AddParts(c1, c2, k));
  }

  /** `b - a` and `b + a` */
  method Ratio(b: Fe, a: Fe, ghost vb: Residue, ghost va: Residue) returns (x: Fe, y: Fe)
    requires Rep(b, vb, TIGHT) && Rep(a, va, TIGHT)
    ensures Rep(x, FSub(vb, va), LOOSE) && Rep(y, FAdd(vb, va), LOOSE)
  {
    hide *;
    Sizes();
    x := Minus(b, a, vb, TIGHT, va, TIGHT);
    y := Plus(b, a, vb, TIGHT, va, TIGHT);
    RepWiden(x, FSub(vb, va), TIGHT + 0x10_0000_0000_0000, LOOSE);
    RepWiden(y, FAdd(vb, va), TIGHT + TIGHT, LOOSE);
  }

  /** `d + c` and `d - c` for a `d` that is itself a sum. */
  method WideEnds(d: Fe, c: Fe, ghost vd: Residue, ghost vc: Residue) returns (z: Fe, t: Fe)
    requires Rep(d, vd, TIGHT + TIGHT) && Rep(c, vc, TIGHT)
    ensures Rep(z, FAdd(vd, vc), LOOSE) && Rep(t, FSub(vd, vc), LOOSE)
  {
    hide *;
    Sizes();
    z := Plus(d, c, vd, TIGHT + TIGHT, vc, TIGHT);
    t := MinusAfterBasic(d, c, vd, TIGHT + TIGHT, vc, TIGHT);
    RepWiden(z, FAdd(vd, vc), TIGHT + TIGHT + TIGHT, LOOSE);
    RepWiden(t, FSub(vd, vc), TIGHT + TIGHT + 0x20_0000_0000_0000, LOOSE);
  }

  /** `ge25519_add` */
  method PointAdd(p: Ge, q: Ge, ec2d: Fe, ghost c1: Coords, ghost c2: Coords, ghost k: Residue) returns (r: Ge)
    requires Is(p, c1) && Is(q, c2) && Rep(ec2d, k, TIGHT)
    ensures Is(r, AddFormula(c1, c2, k))
  {
    hide *;
    var t := AddP1p1(p, q, ec2d, c1, c2, k);
    r := ToFull(t, AddParts(c1, c2, k));
    AddPartsAre(c1, c2, k);
  }

  // ---------- doubling ----------

  /** The parts of the code's doubling: `E` and `G` with the other sign. */
  function Flipped(s: Parts): Parts {
    Parts(FNeg(s.e), s.h, FNeg(s.g), s.f)
  }

  lemma {:induction false} DoublePartsAre(c: Coords)
    ensures var a, b, zz, u := FMul(c.x, c.x), FMul(c.y, c.y), FMul(c.z, c.z), FAdd(c.x, c.y);
            Flipped(DoubleParts(c))
              == Parts(FSub(FMul(u, u), FAdd(b, a)), FAdd(b, a), FSub(b, a), FSub(FAdd(zz, zz), FSub(b, a)))
  {
    var a, b, zz, u := FMul(c.x, c.x), FMul(c.y, c.y), FMul(c.z, c.z), FAdd(c.x, c.y);
    assert DoubleParts(c)
      == Parts(FSub(FAdd(b, a), FMul(u, u)), FAdd(b, a), FSub(a, b), FAdd(FAdd(zz, zz), FSub(a, b)));
    hide FAdd, FSub, FMul, FNeg, DoubleParts;
    SignLaws(FAdd(b, a), FMul(u, u));
    SignLaws(a, b);
    SignLaws(b, a);
    SignLaws(FAdd(zz, zz), FSub(a, b));
  }

  /** `ge25519_double_p1p1`: reads three coordinates only. */
  method DoubleP1p1(p: Ge, ghost c: Coords) returns (r: P1p1)
    requires IsPartial(p, c)
    ensures Between(r, Flipped(DoubleParts(c)))
  {
    hide *;
    PartialParts(p, c);
    Sizes();
    DoublePartsAre(c);
    ghost var va, vb, vz, vu := FMul(c.x, c.x), FMul(c.y, c.y), FMul(c.z, c.z), FAdd(c.x, c.y);
    var a := Squared(p.x, c.x, TIGHT);
    var b := Squared(p.y, c.y, TIGHT);
    var d := Squared(p.z, c.z, TIGHT);
    d := PlusReduced(d, d, vz, TIGHT, vz, TIGHT);
    var x := Plus(p.x, p.y, c.x, TIGHT, c.y, TIGHT);
    x := Squared(x, vu, TIGHT + TIGHT);
    var y := Plus(b, a, vb, TIGHT, va, TIGHT);
    var z := Minus(b, a, vb, TIGHT, va, TIGHT);
    x := MinusAfterBasic(x, y, FMul(vu, vu), TIGHT, FAdd(vb, va), TIGHT + TIGHT);
    var t := MinusAfterBasic(d, z, FAdd(vz, vz), TIGHT, FSub(vb, va), TIGHT + 0x10_0000_0000_0000);
    r := P1p1(x, y, z, t);
    RepWiden(x, FSub(FMul(vu, vu), FAdd(vb, va)), TIGHT + 0x20_0000_0000_0000, LOOSE);
    RepWiden(y, FAdd(vb, va), TIGHT + TIGHT, LOOSE);
    RepWiden(z, FSub(vb, va), TIGHT + 0x10_0000_0000_0000, LOOSE);
    RepWiden(t, FSub(FAdd(vz, vz), FSub(vb, va)), TIGHT + 0x20_0000_0000_0000, LOOSE);
    BetweenBy(r, Flipped(DoubleParts(c)));
  }

  lemma PartialParts(p: Ge, c: Coords)
    requires IsPartial(p, c)
    ensures Rep(p.x, c.x, TIGHT) && Rep(p.y, c.y, TIGHT) && Rep(p.z, c.z, TIGHT)
  {
    hide Rep;
  }

  lemma {:induction false} SignsOut(s: Parts)
    ensures Completed(Flipped(s)) == Negated(Completed(s))
  {
    hide FMul, FNeg;
    SignLaws(s.e, s.f);
    SignLaws(s.h, s.g);
    SignLaws(s.g, s.f);
    SignLaws(s.e, s.h);
  }

  lemma DoubleIs(c: Coords)
    ensures Completed(Flipped(DoubleParts(c))) == Negated(DoubleFormula(c))
  {
    hide FMul, FNeg, Completed, DoubleParts, Flipped, Negated;
    SignsOut(DoubleParts(c));
  }

  /** `ge25519_double`: the formula of the standard with all four coordinates negated, which is the same point. */
  method PointDouble(p: Ge, ghost c: Coords) returns (r: Ge)
    requires IsPartial(p, c)
    ensures Is(r, Negated(DoubleFormula(c)))
  {
    hide *;
    var t := DoubleP1p1(p, c);
    r := ToFull(t, Flipped(DoubleParts(c)));
    DoubleIs(c);
  }

  /** `ge25519_double_partial` */
  method PointDoublePartial(p: Ge, before: Fe, ghost c: Coords) returns (r: Ge)
    requires IsPartial(p, c)
    ensures IsPartial(r, Negated(DoubleFormula(c))) && r.t == before
  {
    hide *;
    var t := DoubleP1p1(p, c);
    r := ToPartial(t, before, Flipped(DoubleParts(c)));
    DoubleIs(c);
  }
}
