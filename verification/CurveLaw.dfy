/** The curve `-x^2 + y^2 = 1 + d x^2 y^2` in extended coordinates: what the formulas mean on it. */
module CurveLaw {
  import opened Limbs
  import opened PrimeField
  import opened Field
  import opened FieldMul
  import opened Points
  import opened NielsPoints

  // ---------- the constants ----------

  /** `ge25519_ecd`, `ge25519_ec2d` and `ge25519_sqrtneg1` */
  const ECD: Fe := [0x34dca135978a3, 0x1a8283b156ebd, 0x5e7a26001c029, 0x739c663a03cbb, 0x52036cee2b6ff]
  const EC2D: Fe := [0x69b9426b2f159, 0x35050762add7a, 0x3cf44c0038052, 0x6738cc7407977, 0x2406d9dc56dff]
  const SQRTNEG1: Fe := [0x61b274a0ea0b0, 0xd5a5fc8f189d, 0x7ef5e9cbd0c60, 0x78595a6804c9e, 0x2b8324804fc1d]

  const BASE_X: Fe := [0x62d608f25d51a, 0x412a4b4f6592a, 0x75b7171a4b31d, 0x1ff60527118fe, 0x216936d3cd6e5]
  const BASE_Y: Fe := [0x6666666666658, 0x4cccccccccccc, 0x1999999999999, 0x3333333333333, 0x6666666666666]
  const BASE_T: Fe := [0x68ab3a5b7dda3, 0xeea2a5eadbb, 0x2af8df483c27e, 0x332b375274732, 0x67875f0fd78b7]

  /** The constant `d` of the curve. */
  const D: Residue := 0x52036cee2b6ffe73_8cc740797779e898_00700a4d4141d8ab_75eb4dca135978a3

  /** The constants are what their names say: `d = -121665 / 121666`, `2d` and a square root of -1. */
  lemma Constants()
    ensures Eval(ECD) == D && Cong(121666 * D, -121665) && Cong(Eval(EC2D), 2 * D)
    ensures Cong(Eval(SQRTNEG1) * Eval(SQRTNEG1), -1)
  {
  }

  /** On the curve with the constant `d`, and the fourth coordinate in step. */
  ghost predicate OnCurve(p: Coords, d: Residue) {
    && FSub(FMul(p.y, p.y), FMul(p.x, p.x)) == FAdd(FMul(p.z, p.z), FMul(d, FMul(p.t, p.t)))
    && FMul(p.x, p.y) == FMul(p.t, p.z)
  }

  /** The two sides of the curve equation as integers. */
  lemma {:induction false} LeftSide(p: Residue, q: Residue, x: int, y: int)
    requires Cong(p, x) && Cong(q, y)
    ensures Cong(FSub(FMul(q, q), FMul(p, p)), y * y - x * x)
  {
    hide *;
    MulCong(p, x, p, x);
    MulCong(q, y, q, y);
    AddCong(FMul(q, q), y * y, FMul(p, p), x * x);
  }

  lemma {:induction false} RightSide(d: Residue, p: Residue, q: Residue, z: int, t: int)
    requires Cong(p, z) && Cong(q, t)
    ensures Cong(FAdd(FMul(p, p), FMul(d, FMul(q, q))), z * z + d * (t * t))
  {
    hide *;
    CongRefl(d);
    MulCong(p, z, p, z);
    MulCong(q, t, q, t);
    MulCong(d, d, FMul(q, q), t * t);
    AddCong(FMul(p, p), z * z, FMul(d, FMul(q, q)), d * (t * t));
  }

  lemma OnCurveIs(p: Coords, d: Residue)
    ensures OnCurve(p, d) <==>
      (&& FSub(FMul(p.y, p.y), FMul(p.x, p.x)) == FAdd(FMul(p.z, p.z), FMul(d, FMul(p.t, p.t)))
       && FMul(p.x, p.y) == FMul(p.t, p.z))
  {
    hide FSub, FAdd, FMul;
  }

  /** The equation of a point on the curve, for its coordinates as integers. */
  lemma {:induction false} OnCurveInts(p: Coords, d: Residue)
    requires OnCurve(p, d)
    ensures Cong(p.y as int * p.y as int - p.x as int * p.x as int,
                 p.z as int * p.z as int + d as int * (p.t as int * p.t as int))
    ensures Cong(p.x as int * p.y as int, p.t as int * p.z as int)
  {
    hide *;
    OnCurveIs(p, d);
    var x: int, y: int, z: int, t: int := p.x, p.y, p.z, p.t;
    CongRefl(x); CongRefl(y); CongRefl(z); CongRefl(t);
    LeftSide(p.x, p.y, x, y);
    RightSide(d, p.z, p.t, z, t);
    MulCong(p.x, x, p.y, y);
    MulCong(p.t, t, p.z, z);
    Through(FSub(FMul(p.y, p.y), FMul(p.x, p.x)), y * y - x * x, z * z + d * (t * t));
    Through(FMul(p.x, p.y), x * y, t * z);
  }

  lemma Through(r: int, a: int, b: int)
    requires Cong(r, a) && Cong(r, b)
    ensures Cong(a, b)
  {
    hide *;
    CongFlip(r, a);
    CongTrans(a, r, b);
  }

  /** The coordinates of the base point satisfy the equation. */
  lemma BaseOnCurve()
    ensures Cong(Eval(BASE_Y) * Eval(BASE_Y) - Eval(BASE_X) * Eval(BASE_X), 1 + D * (Eval(BASE_T) * Eval(BASE_T)))
    ensures Cong(Eval(BASE_X) * Eval(BASE_Y), Eval(BASE_T))
  {
  }

  // ---------- the sum stays on the curve ----------

  lemma {:induction false} Core(a1: int, b1: int, a2: int, b2: int)
    ensures (a1 * a2 + b1 * b2) * ((a1 + b1) * (a2 + b2)) - (a1 * a2 - b1 * b2) * (a1 * a2 - b1 * b2)
         == (a1 * b1) * ((a2 + b2) * (a2 + b2)) + (a2 * b2) * ((a1 + b1) * (a1 + b1))
  {
  }

  lemma {:induction false} SquareDifference(x1: int, y1: int, x2: int, y2: int)
    ensures var u, v := x1 * y2 + y1 * x2, y1 * y2 + x1 * x2;
            v * v - u * u == (y1 * y1 - x1 * x1) * (y2 * y2 - x2 * x2)
  {
  }

  lemma {:induction false} SquareSum(x1: int, y1: int, x2: int, y2: int)
    ensures var u, v := x1 * y2 + y1 * x2, y1 * y2 + x1 * x2;
            v * v + u * u == (x1 * x1 + y1 * y1) * (x2 * x2 + y2 * y2) + 4 * ((x1 * y1) * (x2 * y2))
  {
  }

  lemma {:induction false} CrossProduct(x1: int, y1: int, x2: int, y2: int)
    ensures var u, v := x1 * y2 + y1 * x2, y1 * y2 + x1 * x2;
            u * v == (x1 * y1) * (x2 * x2 + y2 * y2) + (x2 * y2) * (x1 * x1 + y1 * y1)
  {
  }

  lemma {:induction false} Hypotenuse(x: int, y: int)
    ensures (x * x + y * y) * (x * x + y * y) == (y * y - x * x) * (y * y - x * x) + 4 * ((x * y) * (x * y))
  {
  }

  /** Coordinates as integers. */
  datatype Ints = Ints(x: int, y: int, z: int, t: int)

  function Finished(e: int, h: int, g: int, f: int): Ints {
    Ints(e * f, h * g, g * f, e * h)
  }

  /** By how much a point misses the curve. */
  function Defect(d: int, p: Ints): int {
    (p.y * p.y - p.x * p.x) - (p.z * p.z + d * (p.t * p.t))
  }

  lemma {:induction false} Scaled(d: int, u: int, v: int, g: int, f: int)
    ensures Defect(d, Finished(2 * u, 2 * v, 2 * g, 2 * f)) == 16 * Defect(d, Finished(u, v, g, f))
  {
    var a, b, c, e := u * f, v * g, g * f, u * v;
    assert (2 * u) * (2 * f) == 4 * a && (2 * v) * (2 * g) == 4 * b && (2 * g) * (2 * f) == 4 * c
      && (2 * u) * (2 * v) == 4 * e;
    hide Finished, Defect;
    ScaledDefect(d, Finished(u, v, g, f), Finished(2 * u, 2 * v, 2 * g, 2 * f), u, v, g, f);
  }

  lemma {:induction false} ScaledDefect(d: int, p: Ints, q: Ints, u: int, v: int, g: int, f: int)
    requires p == Finished(u, v, g, f) && q == Finished(2 * u, 2 * v, 2 * g, 2 * f)
    ensures Defect(d, q) == 16 * Defect(d, p)
  {
    assert q.x == 4 * p.x && q.y == 4 * p.y && q.z == 4 * p.z && q.t == 4 * p.t;
    var x, y, z, t := p.x, p.y, p.z, p.t;
    assert q.x * q.x == 16 * (x * x) && q.y * q.y == 16 * (y * y) && q.z * q.z == 16 * (z * z)
      && q.t * q.t == 16 * (t * t);
  }

  /** The defect of a sum, in the differences `n`, products `m` and sums of squares `s` of the summands. */
  function SumDefect(d: int, zz: int, tt: int, zt: int, n1: int, n2: int, m1: int, m2: int, ss: int): int {
    (zz + tt) * (n1 * n2) + (2 * zt) * (ss + 4 * (m1 * m2)) - (zz - tt) * (zz - tt)
    - d * ((m1 * m1) * (n2 * n2 + 4 * (m2 * m2)) + (m2 * m2) * (n1 * n1 + 4 * (m1 * m1)) + 2 * ((m1 * m2) * ss))
  }

  lemma {:induction false} DefectForm(d: int, u: int, v: int, z: int, t: int)
    ensures Defect(d, Finished(u, v, z + t, z - t))
         == (z * z + t * t) * (v * v - u * u) + (2 * (z * t)) * (v * v + u * u)
            - (z * z - t * t) * (z * z - t * t) - d * ((u * v) * (u * v))
  {
    var a, b, c, e := u * (z - t), v * (z + t), (z + t) * (z - t), u * v;
    assert b * b == (v * v) * (z * z + 2 * (z * t) + t * t);
    assert a * a == (u * u) * (z * z - 2 * (z * t) + t * t);
    assert c == z * z - t * t;
    Regroup(u * u, v * v, z * z, t * t, z * t);
  }

  lemma Regroup(uu: int, vv: int, zz: int, tt: int, zt: int)
    ensures vv * (zz + 2 * zt + tt) - uu * (zz - 2 * zt + tt) == (zz + tt) * (vv - uu) + (2 * zt) * (vv + uu)
  {
  }

  lemma {:induction false} SquareOfSum(a: int, b: int, s1: int, s2: int)
    ensures (a * s2 + b * s1) * (a * s2 + b * s1)
      == (a * a) * (s2 * s2) + (b * b) * (s1 * s1) + 2 * ((a * b) * (s1 * s2))
  {
  }

  lemma {:induction false} DefectOfSum(d: int, x1: int, y1: int, x2: int, y2: int, z: int, t: int)
    ensures Defect(d, Finished(x1 * y2 + y1 * x2, y1 * y2 + x1 * x2, z + t, z - t))
         == SumDefect(d, z * z, t * t, z * t, y1 * y1 - x1 * x1, y2 * y2 - x2 * x2, x1 * y1, x2 * y2,
                      (x1 * x1 + y1 * y1) * (x2 * x2 + y2 * y2))
  {
    SumDefectIs(d, z * z, t * t, z * t, y1 * y1 - x1 * x1, y2 * y2 - x2 * x2, x1 * y1, x2 * y2,
                (x1 * x1 + y1 * y1) * (x2 * x2 + y2 * y2));
    hide *;
    var u, v := x1 * y2 + y1 * x2, y1 * y2 + x1 * x2;
    var n1, n2, m1, m2 := y1 * y1 - x1 * x1, y2 * y2 - x2 * x2, x1 * y1, x2 * y2;
    var s1, s2 := x1 * x1 + y1 * y1, x2 * x2 + y2 * y2;
    DefectForm(d, u, v, z, t);
    SquareDifference(x1, y1, x2, y2);
    SquareSum(x1, y1, x2, y2);
    CrossProduct(x1, y1, x2, y2);
    SquareOfSum(m1, m2, s1, s2);
    Hypotenuse(x1, y1);
    Hypotenuse(x2, y2);
  }

  lemma SumDefectIs(d: int, zz: int, tt: int, zt: int, n1: int, n2: int, m1: int, m2: int, ss: int)
    ensures SumDefect(d, zz, tt, zt, n1, n2, m1, m2, ss)
      == (zz + tt) * (n1 * n2) + (2 * zt) * (ss + 4 * (m1 * m2)) - (zz - tt) * (zz - tt)
       - d * ((m1 * m1) * (n2 * n2 + 4 * (m2 * m2)) + (m2 * m2) * (n1 * n1 + 4 * (m1 * m1)) + 2 * ((m1 * m2) * ss))
  {
  }

  /** With the curve equation for both summands every term cancels. */
  lemma {:induction false} Cancels(d: int, z1: int, t1: int, z2: int, t2: int, ss: int)
    ensures var z, t := z1 * z2, d * (t1 * t2);
            SumDefect(d, z * z, t * t, z * t, z1 * z1 + d * (t1 * t1), z2 * z2 + d * (t2 * t2), t1 * z1, t2 * z2, ss)
              == 0
  {
    var z, t := z1 * z2, d * (t1 * t2);
    var a1, b1, a2, b2 := z1 * z1, d * (t1 * t1), z2 * z2, d * (t2 * t2);
    var m1, m2 := t1 * z1, t2 * z2;
    SumDefectIs(d, z * z, t * t, z * t, a1 + b1, a2 + b2, m1, m2, ss);
    hide *;
    Four(z1, z2);
    Four(t1, z1);
    Four(t2, z2);
    Four(t1, t2);
    TimesSquare(d, t1 * t2, t1 * t1, t2 * t2);
    Factor(d, t1 * t1, a1);
    Factor(d, t2 * t2, a2);
    Pull(z1, z2, t1, t2, d);
    Core(a1, b1, a2, b2);
    Collect(d, m1 * m1, m2 * m2, m1 * m2, (a2 + b2) * (a2 + b2), (a1 + b1) * (a1 + b1), ss);
    Four(m1, m2);
  }

  lemma Four(a: int, b: int)
    ensures (a * b) * (a * b) == (a * a) * (b * b)
  {
  }

  lemma TimesSquare(d: int, w: int, a: int, b: int)
    requires w * w == a * b
    ensures (d * w) * (d * w) == (d * a) * (d * b)
  {
    assert (d * w) * (d * w) == (d * d) * (w * w);
    assert (d * a) * (d * b) == (d * d) * (a * b);
  }

  lemma Factor(d: int, tt: int, zz: int)
    ensures d * (tt * zz) == zz * (d * tt)
  {
  }

  lemma Pull(z1: int, z2: int, t1: int, t2: int, d: int)
    ensures (z1 * z2) * (d * (t1 * t2)) == d * ((t1 * z1) * (t2 * z2))
  {
  }

  /** The part of the defect that carries the factor `d`. */
  lemma Collect(d: int, p1: int, p2: int, m: int, q2: int, q1: int, ss: int)
    requires m * m == p1 * p2
    ensures (2 * (d * m)) * (ss + 4 * m) - d * (p1 * (q2 + 4 * p2) + p2 * (q1 + 4 * p1) + 2 * (m * ss))
         == -((d * p1) * q2 + (d * p2) * q1)
  {
    hide *;
    Inner(p1, q2, p2);
    Inner(p2, q1, p1);
    Outer(d, m, ss);
    Spread5(d, p1 * q2, p2 * q1, p1 * p2, m * ss);
    Regrouped(d, p1, q2);
    Regrouped(d, p2, q1);
  }

  lemma Inner(p: int, q: int, r: int)
    ensures p * (q + 4 * r) == p * q + 4 * (p * r) && p * r == r * p
  {
  }

  lemma Outer(d: int, m: int, s: int)
    ensures (2 * (d * m)) * (s + 4 * m) == 2 * (d * (m * s)) + 8 * (d * (m * m))
  {
    var e := d * m;
    assert (2 * e) * (s + 4 * m) == 2 * (e * s) + 8 * (e * m);
    assert e * s == d * (m * s) && e * m == d * (m * m);
  }

  lemma Spread5(d: int, a: int, b: int, c: int, e: int)
    ensures d * (a + 4 * c + (b + 4 * c) + 2 * e) == d * a + d * b + 8 * (d * c) + 2 * (d * e)
  {
  }

  lemma Regrouped(d: int, p: int, q: int)
    ensures (d * p) * q == d * (p * q)
  {
  }

  lemma {:induction false} DefectCong(d: int, zz: int, tt: int, zt: int, n1: int, n2: int, m1: int, m2: int, ss: int,
                                      k1: int, k2: int, l1: int, l2: int)
    requires Cong(n1, k1) && Cong(n2, k2) && Cong(m1, l1) && Cong(m2, l2)
    ensures Cong(SumDefect(d, zz, tt, zt, n1, n2, m1, m2, ss), SumDefect(d, zz, tt, zt, k1, k2, l1, l2, ss))
  {
    SumDefectIs(d, zz, tt, zt, n1, n2, m1, m2, ss);
    SumDefectIs(d, zz, tt, zt, k1, k2, l1, l2, ss);
    hide *;
    CongMul(n1, k1, n2, k2);
    CongMul(n1, k1, n1, k1);
    CongMul(n2, k2, n2, k2);
    CongMul(m1, l1, m1, l1);
    CongMul(m2, l2, m2, l2);
    CongMul(m1, l1, m2, l2);
    Linear(zz + tt, n1 * n2, k1 * k2);
    CongRefl(ss);
    Linear(4, m1 * m2, l1 * l2);
    CongAdd(ss, ss, 4 * (m1 * m2), 4 * (l1 * l2));
    Linear(2 * zt, ss + 4 * (m1 * m2), ss + 4 * (l1 * l2));
    Linear(4, m2 * m2, l2 * l2);
    CongAdd(n2 * n2, k2 * k2, 4 * (m2 * m2), 4 * (l2 * l2));
    Linear(4, m1 * m1, l1 * l1);
    CongAdd(n1 * n1, k1 * k1, 4 * (m1 * m1), 4 * (l1 * l1));
    CongMul(m1 * m1, l1 * l1, n2 * n2 + 4 * (m2 * m2), k2 * k2 + 4 * (l2 * l2));
    CongMul(m2 * m2, l2 * l2, n1 * n1 + 4 * (m1 * m1), k1 * k1 + 4 * (l1 * l1));
    CongMul(m1 * m2, l1 * l2, ss, ss);
    var a, a' := (m1 * m1) * (n2 * n2 + 4 * (m2 * m2)), (l1 * l1) * (k2 * k2 + 4 * (l2 * l2));
    var b, b' := (m2 * m2) * (n1 * n1 + 4 * (m1 * m1)), (l2 * l2) * (k1 * k1 + 4 * (l1 * l1));
    CongAdd(a, a', b, b');
    Linear(2, (m1 * m2) * ss, (l1 * l2) * ss);
    CongAdd(a + b, a' + b', 2 * ((m1 * m2) * ss), 2 * ((l1 * l2) * ss));
    Linear(d, a + b + 2 * ((m1 * m2) * ss), a' + b' + 2 * ((l1 * l2) * ss));
    var q := (zz - tt) * (zz - tt);
    CongRefl(q);
    var c, c' := (zz + tt) * (n1 * n2), (zz + tt) * (k1 * k2);
    var e, e' := (2 * zt) * (ss + 4 * (m1 * m2)), (2 * zt) * (ss + 4 * (l1 * l2));
    CongAdd(c, c', e, e');
    CongAdd(c + e, c' + e', q, q);
    CongAdd(c + e - q, c' + e' - q, d * (a + b + 2 * ((m1 * m2) * ss)), d * (a' + b' + 2 * ((l1 * l2) * ss)));
  }

  lemma Linear(k: int, x: int, y: int)
    requires Cong(x, y)
    ensures Cong(k * x, k * y)
  {
    hide *;
    CongRefl(k);
    CongMul(k, k, x, y);
  }

  /** The parts of a sum, without their common factor 2. */
  datatype Halves = Halves(u: nat, v: nat, z: nat, t: nat)

  function HalvesOf(p: Coords, q: Coords, d: Residue): Halves {
    Halves(Product(p.x, q.y) + Product(p.y, q.x), Product(p.y, q.y) + Product(p.x, q.x),
           Product(p.z, q.z), Product(d, Product(p.t, q.t)))
  }

  ghost predicate AreParts(s: Parts, h: Halves) {
    Cong(s.e, 2 * h.u) && Cong(s.h, 2 * h.v) && Cong(s.g, 2 * (h.z + h.t)) && Cong(s.f, 2 * (h.z - h.t))
  }

  lemma {:induction false} SumParts(p: Coords, q: Coords, d: Residue)
    ensures AreParts(AddParts(p, q, FAdd(d, d)), HalvesOf(p, q, d))
  {
    hide *;
    AddPartsAre(p, q, FAdd(d, d));
    HalvesAre(p, q, d);
    var x1: int, y1: int, z1: int, t1: int := p.x, p.y, p.z, p.t;
    var x2: int, y2: int, z2: int, t2: int := q.x, q.y, q.z, q.t;
    var e: int := d;
    CongRefl(x1); CongRefl(y1); CongRefl(z1); CongRefl(t1);
    CongRefl(x2); CongRefl(y2); CongRefl(z2); CongRefl(t2); CongRefl(e);
    AddCong(p.y, y1, p.x, x1);
    AddCong(q.y, y2, q.x, x2);
    AddCong(d, e, d, e);
    var a, b := FMul(FSub(p.y, p.x), FSub(q.y, q.x)), FMul(FAdd(p.y, p.x), FAdd(q.y, q.x));
    MulCong(FSub(p.y, p.x), y1 - x1, FSub(q.y, q.x), y2 - x2);
    MulCong(FAdd(p.y, p.x), y1 + x1, FAdd(q.y, q.x), y2 + x2);
    AddCong(b, (y1 + x1) * (y2 + x2), a, (y1 - x1) * (y2 - x2));
    MulCong(p.t, t1, q.t, t2);
    var c := FMul(FMul(p.t, q.t), FAdd(d, d));
    MulCong(FMul(p.t, q.t), t1 * t2, FAdd(d, d), e + e);
    MulCong(p.z, z1, q.z, z2);
    var z := FMul(p.z, q.z);
    AddCong(z, z1 * z2, z, z1 * z2);
    AddCong(FAdd(z, z), z1 * z2 + z1 * z2, c, (t1 * t2) * (e + e));
    Doubled(x1, y1, x2, y2);
    TwiceProduct(t1 * t2, e);
    ArePartsBy(AddParts(p, q, FAdd(d, d)), HalvesOf(p, q, d));
  }

  lemma Doubled(x1: int, y1: int, x2: int, y2: int)
    ensures (y1 + x1) * (y2 + x2) - (y1 - x1) * (y2 - x2) == 2 * (x1 * y2 + y1 * x2)
    ensures (y1 + x1) * (y2 + x2) + (y1 - x1) * (y2 - x2) == 2 * (y1 * y2 + x1 * x2)
  {
  }

  lemma TwiceProduct(w: int, e: int)
    ensures w * (e + e) == 2 * (e * w)
  {
  }

  lemma HalvesAre(p: Coords, q: Coords, d: Residue)
    ensures var h := HalvesOf(p, q, d);
            && h.u == p.x as int * q.y as int + p.y as int * q.x as int
              && h.v == p.y as int * q.y as int + p.x as int * q.x as int
            && h.z == p.z as int * q.z as int && h.t == d as int * (p.t as int * q.t as int)
  {
    hide Product;
    ProductIs(p.x, q.y); ProductIs(p.y, q.x); ProductIs(p.y, q.y); ProductIs(p.x, q.x);
    ProductIs(p.z, q.z); ProductIs(p.t, q.t); ProductIs(d, Product(p.t, q.t));
  }

  lemma ArePartsBy(s: Parts, h: Halves)
    requires Cong(s.e, 2 * h.u) && Cong(s.h, 2 * h.v) && Cong(s.g, 2 * (h.z + h.t)) && Cong(s.f, 2 * (h.z - h.t))
    ensures AreParts(s, h)
  {
    hide Cong;
  }

  lemma ArePartsIs(s: Parts, h: Halves)
    requires AreParts(s, h)
    ensures Cong(s.e, 2 * h.u) && Cong(s.h, 2 * h.v) && Cong(s.g, 2 * (h.z + h.t)) && Cong(s.f, 2 * (h.z - h.t))
  {
    hide Cong;
  }

  lemma {:induction false} CompletedCong(s: Parts, e: int, h: int, g: int, f: int)
    requires Cong(s.e, e) && Cong(s.h, h) && Cong(s.g, g) && Cong(s.f, f)
    ensures var c := Completed(s);
            Cong(c.x, e * f) && Cong(c.y, h * g) && Cong(c.z, g * f) && Cong(c.t, e * h)
  {
    CompletedIs(s);
    hide *;
    MulCong(s.e, e, s.f, f);
    MulCong(s.h, h, s.g, g);
    MulCong(s.g, g, s.f, f);
    MulCong(s.e, e, s.h, h);
  }

  lemma CompletedIs(s: Parts)
    ensures Completed(s) == Coords(FMul(s.e, s.f), FMul(s.h, s.g), FMul(s.g, s.f), FMul(s.e, s.h))
  {
    hide FMul;
  }

  lemma {:induction false} InStep(e: int, h: int, g: int, f: int)
    ensures (e * f) * (h * g) == (e * h) * (g * f)
  {
  }

  lemma DefectZero(d: int, p: Ints)
    requires Cong(Defect(d, p), 0)
    ensures Cong(p.y * p.y - p.x * p.x, p.z * p.z + d * (p.t * p.t))
  {
    var a, b := p.y * p.y - p.x * p.x, p.z * p.z + d * (p.t * p.t);
    assert Defect(d, p) == a - b;
    hide *;
    CongRefl(b);
    CongAdd(a - b, 0, b, b);
  }

  /** The defect of a sum vanishes when both summands are on the curve. */
  lemma {:induction false} HalvesVanish(p: Coords, q: Coords, d: Residue)
    requires OnCurve(p, d) && OnCurve(q, d)
    ensures var h := HalvesOf(p, q, d);
            Cong(Defect(d, Finished(2 * h.u, 2 * h.v, 2 * (h.z + h.t), 2 * (h.z - h.t))), 0)
  {
    hide *;
    OnCurveInts(p, d);
    OnCurveInts(q, d);
    HalvesAre(p, q, d);
    var x1: int, y1: int, z1: int, t1: int := p.x, p.y, p.z, p.t;
    var x2: int, y2: int, z2: int, t2: int := q.x, q.y, q.z, q.t;
    var e: int := d;
    var u, v, z, t := x1 * y2 + y1 * x2, y1 * y2 + x1 * x2, z1 * z2, e * (t1 * t2);
    var ss := (x1 * x1 + y1 * y1) * (x2 * x2 + y2 * y2);
    Scaled(e, u, v, z + t, z - t);
    DefectOfSum(e, x1, y1, x2, y2, z, t);
    Cancels(e, z1, t1, z2, t2, ss);
    DefectCong(e, z * z, t * t, z * t, y1 * y1 - x1 * x1, y2 * y2 - x2 * x2, x1 * y1, x2 * y2, ss,
               z1 * z1 + e * (t1 * t1), z2 * z2 + e * (t2 * t2), t1 * z1, t2 * z2);
    Linear(16, Defect(e, Finished(u, v, z + t, z - t)), 0);
  }

  /** The sum of two points of the curve is on the curve. */
  lemma {:induction false} SumOnCurve(p: Coords, q: Coords, d: Residue)
    requires OnCurve(p, d) && OnCurve(q, d)
    ensures OnCurve(AddFormula(p, q, FAdd(d, d)), d)
  {
    hide *;
    var k := FAdd(d, d);
    var s, h := AddParts(p, q, k), HalvesOf(p, q, d);
    AddPartsAre(p, q, k);
    SumParts(p, q, d);
    ArePartsIs(s, h);
    var e, n, g, f := 2 * h.u, 2 * h.v, 2 * (h.z + h.t), 2 * (h.z - h.t);
    CompletedCong(s, e, n, g, f);
    HalvesVanish(p, q, d);
    FinishedIs(e, n, g, f);
    DefectZero(d, Finished(e, n, g, f));
    InStep(e, n, g, f);
    var x, y, z, t := e * f, n * g, g * f, e * n;
    var r, w := AddFormula(p, q, k), d as int * (t * t);
    OnCurveIs(r, d);
    LeftSide(r.x, r.y, x, y);
    RightSide(d, r.z, r.t, z, t);
    MulCong(r.x, x, r.y, y);
    MulCong(r.t, t, r.z, z);
    var a, b := FSub(FMul(r.y, r.y), FMul(r.x, r.x)), FAdd(FMul(r.z, r.z), FMul(d, FMul(r.t, r.t)));
    CongTrans(a, y * y - x * x, z * z + w);
    Meet(a, b, z * z + w);
    Meet(FMul(r.x, r.y), FMul(r.t, r.z), x * y);
  }

  lemma FinishedIs(e: int, h: int, g: int, f: int)
    ensures Finished(e, h, g, f) == Ints(e * f, h * g, g * f, e * h)
  {
  }

  // ---------- what the sums are ----------

  /** `p` with every coordinate multiplied by `k`: the same point. */
  function Scale(k: Residue, p: Coords): Coords {
    Coords(FMul(k, p.x), FMul(k, p.y), FMul(k, p.z), FMul(k, p.t))
  }

  lemma {:induction false} SumCommutes(p: Coords, q: Coords, k: Residue)
    ensures AddFormula(p, q, k) == AddFormula(q, p, k)
  {
    hide *;
    AddPartsAre(p, q, k);
    AddPartsAre(q, p, k);
    MulAssoc(FSub(p.y, p.x), FSub(q.y, q.x), k);
    MulAssoc(FAdd(p.y, p.x), FAdd(q.y, q.x), k);
    MulAssoc(p.t, q.t, k);
    MulAssoc(p.z, q.z, k);
  }

  const FOUR: Residue := 4

  lemma {:induction false} Twofold(x: Residue, y: Residue, c: Residue, a: int, b: int)
    requires Cong(x, 2 * a) && Cong(y, 2 * b) && Cong(c, a * b)
    ensures FMul(x, y) == FMul(FOUR, c)
  {
    assert FOUR == 4;
    CongRefl(4);
    hide *;
    MulCong(x, 2 * a, y, 2 * b);
    MulCong(FOUR, 4, c, a * b);
    FourTimes(a, b);
    Meet(FMul(x, y), FMul(FOUR, c), 4 * (a * b));
  }

  lemma FourTimes(a: int, b: int)
    ensures (2 * a) * (2 * b) == 4 * (a * b)
  {
  }

  /** Parts that are twice others complete to four times the same point. */
  lemma {:induction false} TwiceCompletes(s: Parts, r: Parts, e: int, h: int, g: int, f: int)
    requires Cong(s.e, 2 * e) && Cong(s.h, 2 * h) && Cong(s.g, 2 * g) && Cong(s.f, 2 * f)
    requires Cong(r.e, e) && Cong(r.h, h) && Cong(r.g, g) && Cong(r.f, f)
    ensures Completed(s) == Scale(FOUR, Completed(r))
  {
    CompletedIs(s);
    CompletedIs(r);
    ScaleIs(FOUR, Completed(r));
    hide *;
    CompletedCong(r, e, h, g, f);
    Twofold(s.e, s.f, FMul(r.e, r.f), e, f);
    Twofold(s.h, s.g, FMul(r.h, r.g), h, g);
    Twofold(s.g, s.f, FMul(r.g, r.f), g, f);
    Twofold(s.e, s.h, FMul(r.e, r.h), e, h);
  }

  lemma ScaleIs(k: Residue, p: Coords)
    ensures Scale(k, p) == Coords(FMul(k, p.x), FMul(k, p.y), FMul(k, p.z), FMul(k, p.t))
  {
    hide FMul;
  }

  /** The parts of the code's doubling are the halves of a sum. */
  lemma {:induction false} DoubleInts(p: Coords, d: Residue)
    requires OnCurve(p, d)
    ensures var h, r := HalvesOf(p, p, d), Flipped(DoubleParts(p));
            Cong(r.e, h.u) && Cong(r.h, h.v) && Cong(r.g, h.z + h.t) && Cong(r.f, h.z - h.t)
  {
    hide *;
    DoublePartsAre(p);
    HalvesAre(p, p, d);
    OnCurveInts(p, d);
    var x: int, y: int, z: int, w: int := p.x, p.y, p.z, d as int * (p.t as int * p.t as int);
    CongRefl(x); CongRefl(y); CongRefl(z);
    var a, b, zz, u := FMul(p.x, p.x), FMul(p.y, p.y), FMul(p.z, p.z), FAdd(p.x, p.y);
    MulCong(p.x, x, p.x, x);
    MulCong(p.y, y, p.y, y);
    MulCong(p.z, z, p.z, z);
    AddCong(p.x, x, p.y, y);
    MulCong(u, x + y, u, x + y);
    AddCong(b, y * y, a, x * x);
    AddCong(FMul(u, u), (x + y) * (x + y), FAdd(b, a), y * y + x * x);
    SquareOfBinomial(x, y);
    CongTrans(FSub(b, a), y * y - x * x, z * z + w);
    AddCong(zz, z * z, zz, z * z);
    AddCong(FAdd(zz, zz), z * z + z * z, FSub(b, a), z * z + w);
  }

  lemma SquareOfBinomial(x: int, y: int)
    ensures (x + y) * (x + y) - (y * y + x * x) == x * y + y * x
  {
  }

  /** On the curve, the doubling of the code is the sum of the point with itself. */
  lemma {:induction false} DoubleIsSum(p: Coords, d: Residue)
    requires OnCurve(p, d)
    ensures AddFormula(p, p, FAdd(d, d)) == Scale(FOUR, Negated(DoubleFormula(p)))
  {
    hide *;
    AddPartsAre(p, p, FAdd(d, d));
    SumParts(p, p, d);
    ArePartsIs(AddParts(p, p, FAdd(d, d)), HalvesOf(p, p, d));
    DoubleInts(p, d);
    DoubleIs(p);
    var h := HalvesOf(p, p, d);
    TwiceCompletes(AddParts(p, p, FAdd(d, d)), Flipped(DoubleParts(p)), h.u, h.v, h.z + h.t, h.z - h.t);
  }

  const NEUTRAL: Coords := Coords(0, 1, 1, 0)

  lemma {:induction false} NeutralHalves(p: Coords, d: Residue)
    ensures HalvesOf(p, NEUTRAL, d) == Halves(p.x, p.y, p.z, 0)
  {
    hide Product;
    ProductIs(p.x, 0); ProductIs(p.y, 0); ProductIs(p.t, 0); ProductIs(d, 0);
    ProductIs(p.x, 1); ProductIs(p.y, 1); ProductIs(p.z, 1);
  }

  lemma {:induction false} ScaledProduct(x: Residue, y: Residue, c: Residue, k: Residue, a: int, b: int, z: int)
    requires Cong(x, 2 * a) && Cong(y, 2 * b) && Cong(k, 4 * z) && Cong(c, c) && Cong(a * b, z * c)
    ensures FMul(x, y) == FMul(k, c)
  {
    hide *;
    MulCong(x, 2 * a, y, 2 * b);
    MulCong(k, 4 * z, c, c);
    FourTimes(a, b);
    var n: int := c;
    Linear(4, a * b, z * n);
    CongTrans(FMul(x, y), 4 * (a * b), 4 * (z * n));
    FourOut(z, n);
    Meet(FMul(x, y), FMul(k, c), 4 * (z * n));
  }

  lemma FourOut(z: int, n: int)
    ensures (4 * z) * n == 4 * (z * n)
  {
  }

  /** Adding the neutral point gives the point back. */
  lemma {:induction false} SumNeutral(p: Coords, d: Residue)
    requires OnCurve(p, d)
    ensures AddFormula(p, NEUTRAL, FAdd(d, d)) == Scale(FMul(FOUR, p.z), p)
  {
    FourIs();
    hide *;
    var s, k := AddParts(p, NEUTRAL, FAdd(d, d)), FMul(FOUR, p.z);
    AddPartsAre(p, NEUTRAL, FAdd(d, d));
    SumParts(p, NEUTRAL, d);
    ArePartsIs(s, HalvesOf(p, NEUTRAL, d));
    NeutralHalves(p, d);
    OnCurveInts(p, d);
    CompletedIs(s);
    ScaleIs(k, p);
    var x: int, y: int, z: int, t: int := p.x, p.y, p.z, p.t;
    CongRefl(x); CongRefl(y); CongRefl(z); CongRefl(t);
    MulCong(FOUR, 4, p.z, z);
    Commute(x, z); Commute(y, z); Commute(t, z);
    CongRefl(z * x); CongRefl(z * y); CongRefl(z * z);
    ScaledProduct(s.e, s.f, p.x, k, x, z, z);
    ScaledProduct(s.h, s.g, p.y, k, y, z, z);
    ScaledProduct(s.g, s.f, p.z, k, z, z, z);
    ScaledProduct(s.e, s.h, p.t, k, x, y, z);
  }

  lemma FourIs()
    ensures Cong(FOUR, 4)
  {
  }

  lemma Commute(a: int, b: int)
    ensures a * b == b * a
  {
  }

  lemma {:induction false} OppositeHalves(p: Coords, d: Residue)
    requires OnCurve(p, d)
    ensures var h := HalvesOf(p, Opposite(p), d); Cong(h.u, 0) && Cong(h.v, h.z - h.t)
  {
    hide *;
    HalvesAre(p, Opposite(p), d);
    OppositeIs(p);
    OnCurveInts(p, d);
    var x: int, y: int, zz: int, t: int, e: int := p.x, p.y, p.z as int * p.z as int, p.t, d;
    CongRefl(x); CongRefl(y); CongRefl(t); CongRefl(e);
    AddCong(p.x, x, p.x, x);
    AddCong(p.t, t, p.t, t);
    var nx: int, nt: int := FNeg(p.x), FNeg(p.t);
    CongRefl(x * y); CongRefl(y * y); CongRefl(zz);
    CongMul(y, y, nx, -x);
    CongMul(x, x, nx, -x);
    CongMul(t, t, nt, -t);
    CongMul(e, e, t * nt, t * -t);
    CongAdd(x * y, x * y, y * nx, y * -x);
    CongAdd(y * y, y * y, x * nx, x * -x);
    CongAdd(zz, zz, e * (t * nt), e * (t * -t));
    OppositeProducts(x, y, t, e);
    var h, w := HalvesOf(p, Opposite(p), d), e * (t * t);
    CongTrans(h.v, y * y - x * x, zz + w);
    CongFlip(zz - h.t, zz + w);
    CongTrans(h.v, zz + w, zz - h.t);
  }

  lemma OppositeProducts(x: int, y: int, t: int, e: int)
    ensures x * y + y * -x == 0 && y * y + x * -x == y * y - x * x && e * (t * -t) == -(e * (t * t))
  {
  }

  lemma OppositeIs(p: Coords)
    ensures Opposite(p) == Coords(FNeg(p.x), p.y, p.z, FNeg(p.t))
  {
    hide FNeg;
  }

  /** A point and its opposite add up to the neutral point. */
  lemma {:induction false} SumOpposite(p: Coords, d: Residue)
    requires OnCurve(p, d)
    ensures var r := AddFormula(p, Opposite(p), FAdd(d, d)); r.x == 0 && r.t == 0 && r.y == r.z
  {
    hide *;
    var q, k := Opposite(p), FAdd(d, d);
    var s, h := AddParts(p, q, k), HalvesOf(p, q, d);
    AddPartsAre(p, q, k);
    SumParts(p, q, d);
    ArePartsIs(s, h);
    OppositeHalves(p, d);
    CompletedIs(s);
    Linear(2, h.u, 0);
    CongTrans(s.e, 2 * h.u, 2 * 0);
    ZeroIs(s.e);
    Linear(2, h.v, h.z - h.t);
    CongTrans(s.h, 2 * h.v, 2 * (h.z - h.t));
    Meet(s.h, s.f, 2 * (h.z - h.t));
    MulAssoc(s.h, s.g, k);
    ZeroTimes(s.f);
    ZeroTimes(s.h);
  }

  lemma ZeroIs(x: Residue)
    requires Cong(x, 0)
    ensures x == 0
  {
    ResidueEq(x, 0);
  }

  lemma ZeroTimes(y: Residue)
    ensures FMul(0, y) == 0
  {
    ProductIs(0, y);
    hide Product;
  }
}
