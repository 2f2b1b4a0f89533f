/** `curve25519_mul`, `curve25519_square` and `curve25519_square_times`. */
module FieldMul {
  import opened Binary
  import opened Arith
  import opened Limbs
  import opened Columns
  import opened PrimeField
  import opened Field

  // ---------- the columns ----------

  // The columns of a product, those above the fifth folded back with a factor of 19.
  function Mul0(r: seq<int>, s: seq<int>): int
    requires |r| == |s| == 5
  {
    r[0] * s[0] + (19 * r[4]) * s[1] + (19 * r[1]) * s[4] + (19 * r[2]) * s[3] + (19 * r[3]) * s[2]
  }

  function Mul1(r: seq<int>, s: seq<int>): int
    requires |r| == |s| == 5
  {
    r[0] * s[1] + r[1] * s[0] + (19 * r[4]) * s[2] + (19 * r[2]) * s[4] + (19 * r[3]) * s[3]
  }

  function Mul2(r: seq<int>, s: seq<int>): int
    requires |r| == |s| == 5
  {
    r[0] * s[2] + r[2] * s[0] + r[1] * s[1] + (19 * r[4]) * s[3] + (19 * r[3]) * s[4]
  }

  function Mul3(r: seq<int>, s: seq<int>): int
    requires |r| == |s| == 5
  {
    r[0] * s[3] + r[3] * s[0] + r[1] * s[2] + r[2] * s[1] + (19 * r[4]) * s[4]
  }

  function Mul4(r: seq<int>, s: seq<int>): int
    requires |r| == |s| == 5
  {
    r[0] * s[4] + r[4] * s[0] + r[3] * s[1] + r[1] * s[3] + r[2] * s[2]
  }

  lemma {:induction false} FoldedRanges(r: Fe, s: Fe)
    requires Bounded(r, LOOSE) && Bounded(s, LOOSE)
    ensures 0 <= Mul0(r, s) < 0x4d00000000000_0000000000000000 && 0 <= Mul1(r, s) < 0x3b00000000000_0000000000000000
      && 0 <= Mul2(r, s) < 0x2900000000000_0000000000000000
    ensures 0 <= Mul3(r, s) < 0x1700000000000_0000000000000000 && 0 <= Mul4(r, s) < 0x500000000000_0000000000000000
  {
    forall i, j | 0 <= i < 5 && 0 <= j < 5
      ensures 0 <= (r[i] as int) * s[j] < 0x100000000000_0000000000000000
        && (19 * r[i] as int) * s[j] == 19 * ((r[i] as int) * s[j])
    {
      MulBound(r[i], s[j], LOOSE - 1, LOOSE - 1);
      Nineteen(r[i], s[j]);
    }
  }

  lemma Nineteen(a: int, b: int)
    ensures (19 * a) * b == 19 * (a * b)
  {
  }

  lemma Spread(a: int, u: int, v: int)
    ensures a * (u + 0x8_0000_0000_0000 * v) == a * u + 0x8_0000_0000_0000 * (a * v)
  {
  }

  lemma {:induction false} Row(a: int, y: seq<int>)
    requires |y| == 5
    ensures a * Eval5(y[0], y[1], y[2], y[3], y[4]) == Eval5(a * y[0], a * y[1], a * y[2], a * y[3], a * y[4])
  {
    Spread(a, y[3], y[4]);
    Spread(a, y[2], y[3] + 0x8_0000_0000_0000 * y[4]);
    Spread(a, y[1], y[2] + 0x8_0000_0000_0000 * (y[3] + 0x8_0000_0000_0000 * y[4]));
    Spread(a, y[0], y[1] + 0x8_0000_0000_0000 * (y[2] + 0x8_0000_0000_0000 * (y[3] + 0x8_0000_0000_0000 * y[4])));
  }

  lemma {:induction false} Rows(x: seq<int>, w: int)
    requires |x| == 5
    ensures Eval5(x[0], x[1], x[2], x[3], x[4]) * w == Eval5(x[0] * w, x[1] * w, x[2] * w, x[3] * w, x[4] * w)
  {
    Row(w, x);
    assert forall i :: 0 <= i < 5 ==> w * x[i] == x[i] * w;
    assert Eval5(x[0], x[1], x[2], x[3], x[4]) * w == w * Eval5(x[0], x[1], x[2], x[3], x[4]);
  }

  /** The nine columns of the product. */
  lemma {:induction false} PlainProduct(r: seq<int>, s: seq<int>)
    requires |r| == |s| == 5
    ensures Eval5(r[0], r[1], r[2], r[3], r[4]) * Eval5(s[0], s[1], s[2], s[3], s[4])
         == Eval5(r[0] * s[0], r[0] * s[1] + r[1] * s[0], r[0] * s[2] + r[2] * s[0] + r[1] * s[1],
                  r[0] * s[3] + r[3] * s[0] + r[1] * s[2] + r[2] * s[1],
                  r[0] * s[4] + r[4] * s[0] + r[3] * s[1] + r[1] * s[3] + r[2] * s[2])
          + 0x8000000000000000_0000000000000000_0000000000000000_0000000000000000
            * Eval5(r[4] * s[1] + r[1] * s[4] + r[2] * s[3] + r[3] * s[2],
                  r[4] * s[2] + r[2] * s[4] + r[3] * s[3], r[4] * s[3] + r[3] * s[4], r[4] * s[4], 0)
  {
    var w := Eval5(s[0], s[1], s[2], s[3], s[4]);
    Rows(r, w);
    Row(r[0], s); Row(r[1], s); Row(r[2], s); Row(r[3], s); Row(r[4], s);
  }

  /** A column above the fifth comes back at the bottom with a factor of 19. */
  lemma {:induction false} Folded(a0: int, a1: int, a2: int, a3: int, a4: int, b0: int, b1: int, b2: int, b3: int)
    ensures Eval5(a0, a1, a2, a3, a4)
      + 0x8000000000000000_0000000000000000_0000000000000000_0000000000000000 * Eval5(b0, b1, b2, b3, 0)
         == Eval5(a0 + 19 * b0, a1 + 19 * b1, a2 + 19 * b2, a3 + 19 * b3, a4) + P * Eval5(b0, b1, b2, b3, 0)
  {
  }

  lemma {:induction false} ColumnsAre(r: seq<int>, s: seq<int>)
    requires |r| == |s| == 5
    ensures Mul0(r, s) == r[0] * s[0] + 19 * (r[4] * s[1] + r[1] * s[4] + r[2] * s[3] + r[3] * s[2])
    ensures Mul1(r, s) == r[0] * s[1] + r[1] * s[0] + 19 * (r[4] * s[2] + r[2] * s[4] + r[3] * s[3])
    ensures Mul2(r, s) == r[0] * s[2] + r[2] * s[0] + r[1] * s[1] + 19 * (r[4] * s[3] + r[3] * s[4])
    ensures Mul3(r, s) == r[0] * s[3] + r[3] * s[0] + r[1] * s[2] + r[2] * s[1] + 19 * (r[4] * s[4])
    ensures Mul4(r, s) == r[0] * s[4] + r[4] * s[0] + r[3] * s[1] + r[1] * s[3] + r[2] * s[2]
  {
    Nineteen(r[4], s[1]); Nineteen(r[1], s[4]); Nineteen(r[2], s[3]); Nineteen(r[3], s[2]);
    Nineteen(r[4], s[2]); Nineteen(r[2], s[4]); Nineteen(r[3], s[3]);
    Nineteen(r[4], s[3]); Nineteen(r[3], s[4]); Nineteen(r[4], s[4]);
  }

  /** The columns above the fifth. */
  function HighColumns(r: seq<int>, s: seq<int>): int
    requires |r| == |s| == 5
  {
    Eval5(r[4] * s[1] + r[1] * s[4] + r[2] * s[3] + r[3] * s[2], r[4] * s[2] + r[2] * s[4] + r[3] * s[3],
          r[4] * s[3] + r[3] * s[4], r[4] * s[4], 0)
  }

  lemma HighColumnsAre(r: seq<int>, s: seq<int>)
    requires |r| == |s| == 5
    ensures HighColumns(r, s)
         == Eval5(r[4] * s[1] + r[1] * s[4] + r[2] * s[3] + r[3] * s[2], r[4] * s[2] + r[2] * s[4] + r[3] * s[3],
                  r[4] * s[3] + r[3] * s[4], r[4] * s[4], 0)
  {
    hide Eval5;
  }

  /** What is folded back differs from the product by a multiple of the prime. */
  lemma {:induction false} FoldedProduct(r: Fe, s: Fe)
    ensures Eval(r) * Eval(s)
         == Eval5(Mul0(r, s), Mul1(r, s), Mul2(r, s), Mul3(r, s), Mul4(r, s)) + P * HighColumns(r, s)
  {
    hide *;
    EvalIs(r);
    EvalIs(s);
    PlainProduct(r, s);
    ColumnsAre(r, s);
    var x: seq<int>, y: seq<int> := r, s;
    var a0, a1, a2, a3, a4 := x[0] * y[0], x[0] * y[1] + x[1] * y[0], x[0] * y[2] + x[2] * y[0] + x[1] * y[1],
      x[0] * y[3] + x[3] * y[0] + x[1] * y[2] + x[2] * y[1],
      x[0] * y[4] + x[4] * y[0] + x[3] * y[1] + x[1] * y[3] + x[2] * y[2];
    var b0, b1, b2, b3 := x[4] * y[1] + x[1] * y[4] + x[2] * y[3] + x[3] * y[2],
      x[4] * y[2] + x[2] * y[4] + x[3] * y[3],
      x[4] * y[3] + x[3] * y[4], x[4] * y[4];
    Folded(a0, a1, a2, a3, a4, b0, b1, b2, b3);
    HighColumnsAre(r, s);
  }

  // ---------- the product ----------

  /** `t >> 51` and `lo128(t) & (2^51 - 1)` */
  method Column51(t: u128) returns (c: u64, d: u64)
    requires t < 0x8000000000000_0000000000000000
    ensures t == 0x8_0000_0000_0000 * c + d && d < 0x8_0000_0000_0000
  {
    LowBits51(t);
    c, d := t / 0x8_0000_0000_0000, (t % 0x1_0000_0000_0000_0000) % 0x8_0000_0000_0000;
  }

  lemma {:induction false} LowBits51(t: nat)
    ensures (t % 0x1_0000_0000_0000_0000) % 0x8_0000_0000_0000 == t % 0x8_0000_0000_0000
  {
    var q, e := t / 0x1_0000_0000_0000_0000, t % 0x1_0000_0000_0000_0000;
    DivUnique(t, 0x8_0000_0000_0000, 0x2000 * q + e / 0x8_0000_0000_0000, e % 0x8_0000_0000_0000);
  }

  lemma EvalIs(a: Fe)
    ensures Eval(a) == Eval5(a[0], a[1], a[2], a[3], a[4])
  {
  }

  lemma {:induction false} MoveUp(r0: int, c: int, e0: int, d1: int, d2: int, d3: int, d4: int)
    requires r0 == 0x8_0000_0000_0000 * c + e0
    ensures Eval5(e0, d1 + c, d2, d3, d4) == Eval5(r0, d1, d2, d3, d4)
  {
  }

  lemma TightBy(a: Fe)
    requires a[0] < 0x8_0000_0000_0000 + 0x8000 && a[1] < 0x8_0000_0000_0000 + 0x8000
      && a[2] < 0x8_0000_0000_0000 + 0x8000
    requires a[3] < 0x8_0000_0000_0000 + 0x8000 && a[4] < 0x8_0000_0000_0000 + 0x8000
    ensures Bounded(a, TIGHT)
  {
  }

  /** Five columns carried into limbs: the end of a multiplication. */
  method CarryColumns(t0: u128, t1: u128, t2: u128, t3: u128, t4: u128) returns (out: Fe)
    requires t0 < 0x4d00000000000_0000000000000000 && t1 < 0x4d00000000000_0000000000000000
      && t2 < 0x4d00000000000_0000000000000000
    requires t3 < 0x4d00000000000_0000000000000000 && t4 < 0x500000000000_0000000000000000
    ensures Cong(Eval(out), Eval5(t0, t1, t2, t3, t4)) && Bounded(out, TIGHT)
  {
    hide *;
    var c0, d0 := Column51(t0);
    var c1, d1 := Column51(t1 + c0);
    var c2, d2 := Column51(t2 + c1);
    var c3, d3 := Column51(t3 + c2);
    var c4, d4 := Column51(t4 + c3);
    var r0: u64 := d0 + c4 * 19;
    var c, e0 := Split51(r0);
    out := [e0, d1 + c, d2, d3, d4];
    TightBy(out);
    EvalIs(out);
    CarriedValue(t0, t1, t2, t3, t4, c0, d0, c1, d1, c2, d2, c3, d3, c4, d4);
    MoveUp(r0, c, e0, d1, d2, d3, d4);
    CongBy(Eval5(t0, t1, t2, t3, t4), Eval(out), c4);
    CongTrans(Eval5(t0, t1, t2, t3, t4), Eval(out), Eval(out));
  }

  /** `curve25519_mul`, for limbs below 2^54: exact modulo the prime, with limbs of 51 bits again. */
  method Mul(s: Fe, r: Fe) returns (out: Fe)
    requires Bounded(s, LOOSE) && Bounded(r, LOOSE)
    ensures Cong(Eval(out), Eval(s) * Eval(r)) && Bounded(out, TIGHT)
  {
    hide *;
    FoldedRanges(r, s);
    out := CarryColumns(Mul0(r, s), Mul1(r, s), Mul2(r, s), Mul3(r, s), Mul4(r, s));
    FoldedProduct(r, s);
    CongProduct(Eval(out), Eval5(Mul0(r, s), Mul1(r, s), Mul2(r, s), Mul3(r, s), Mul4(r, s)), Eval(r), Eval(s),
      HighColumns(r, s));
  }

  lemma CongProduct(x: int, t: int, a: int, b: int, k: int)
    requires Cong(x, t) && a * b == t + P * k
    ensures Cong(x, b * a)
  {
    hide *;
    assert a * b == b * a;
    CongBy(b * a, t, k);
    CongTrans(b * a, t, t);
    CongTrans(x, t, b * a);
  }

  // ---------- squares ----------

  // The columns of a square, with the equal products taken together.
  function Square0(r: seq<int>): int
    requires |r| == 5
  {
    r[0] * r[0] + (r[4] * 19 * 2) * r[1] + (r[2] * 2 * 19) * r[3]
  }

  function Square1(r: seq<int>): int
    requires |r| == 5
  {
    (r[0] * 2) * r[1] + (r[4] * 19 * 2) * r[2] + r[3] * (r[3] * 19)
  }

  function Square2(r: seq<int>): int
    requires |r| == 5
  {
    (r[0] * 2) * r[2] + r[1] * r[1] + (r[4] * 19 * 2) * r[3]
  }

  function Square3(r: seq<int>): int
    requires |r| == 5
  {
    (r[0] * 2) * r[3] + (r[1] * 2) * r[2] + r[4] * (r[4] * 19)
  }

  function Square4(r: seq<int>): int
    requires |r| == 5
  {
    (r[0] * 2) * r[4] + (r[1] * 2) * r[3] + r[2] * r[2]
  }

  lemma Scaled(a: int, b: int)
    ensures (a * 2) * b == a * b + b * a && (a * 19 * 2) * b == (19 * a) * b + (19 * b) * a
    ensures (a * 2 * 19) * b == (19 * a) * b + (19 * b) * a && a * (a * 19) == (19 * a) * a
  {
    var x := a * b;
    assert (a * 2) * b == 2 * x && (a * 19 * 2) * b == 38 * x && (a * 2 * 19) * b == 38 * x;
    assert (19 * a) * b == 19 * x && (19 * b) * a == 19 * x && b * a == x;
  }

  lemma {:induction false} SquaresAre(r: seq<int>)
    requires |r| == 5
    ensures Square0(r) == Mul0(r, r) && Square1(r) == Mul1(r, r) && Square2(r) == Mul2(r, r)
    ensures Square3(r) == Mul3(r, r) && Square4(r) == Mul4(r, r)
  {
    Scaled(r[4], r[1]); Scaled(r[2], r[3]);
    Scaled(r[0], r[1]); Scaled(r[4], r[2]); Scaled(r[3], r[3]);
    Scaled(r[0], r[2]); Scaled(r[4], r[3]);
    Scaled(r[0], r[3]); Scaled(r[1], r[2]); Scaled(r[4], r[4]);
    Scaled(r[0], r[4]); Scaled(r[1], r[3]);
  }

  /** `curve25519_square` */
  method Square(r: Fe) returns (out: Fe)
    requires Bounded(r, LOOSE)
    ensures Cong(Eval(out), Eval(r) * Eval(r)) && Bounded(out, TIGHT)
  {
    hide *;
    FoldedRanges(r, r);
    SquaresAre(r);
    out := CarryColumns(Square0(r), Square1(r), Square2(r), Square3(r), Square4(r));
    FoldedProduct(r, r);
    CongProduct(Eval(out), Eval5(Mul0(r, r), Mul1(r, r), Mul2(r, r), Mul3(r, r), Mul4(r, r)), Eval(r), Eval(r),
      HighColumns(r, r));
  }

  // ---------- repeated squares ----------

  /** `shl128(c, t, 13)`: the upper word of `t << 13`. */
  function ShlHigh(t: nat): nat {
    ((t * 0x2000) % 0x1_0000000000000000_0000000000000000) / 0x1_0000_0000_0000_0000
  }

  lemma {:induction false} ShlHighIs(t: nat)
    requires t < 0x8000000000000_0000000000000000
    ensures ShlHigh(t) == t / 0x8_0000_0000_0000 < 0x1_0000_0000_0000_0000
  {
    var q, e := t / 0x8_0000_0000_0000, t % 0x8_0000_0000_0000;
    assert t == 0x8_0000_0000_0000 * q + e;
    DivUnique(t * 0x2000, 0x1_0000_0000_0000_0000, q, 0x2000 * e);
  }

  /** A column taken apart, its upper part as the shift to the left gives it. */
  method Apart(t: u128) returns (c: u64, d: u64)
    requires t < 0x8000000000000_0000000000000000
    ensures t == 0x8_0000_0000_0000 * c + d && d < 0x8_0000_0000_0000
    ensures t < 0x4d00000000000_0000000000000000 ==> c < 0x9a00000000000000
    ensures t < 0x1700000000000_0000000000000000 ==> c < 0x2e00000000000000
    ensures t < 0x500000000000_0000000000000000 ==> c < 0xa00000000000000
  {
    LowBits51(t);
    ShlHighIs(t);
    hide ShlHigh;
    c, d := ShlHigh(t), (t % 0x1_0000_0000_0000_0000) % 0x8_0000_0000_0000;
  }

  /** The columns moved up by one limb at once. */
  lemma {:induction false} MovedAtOnce(t0: int, t1: int, t2: int, t3: int, t4: int, c0: int, d0: int, c1: int, d1: int,
                                       c2: int, d2: int, c3: int, d3: int, c4: int, d4: int)
    requires t0 == 0x8_0000_0000_0000 * c0 + d0 && t1 == 0x8_0000_0000_0000 * c1 + d1
      && t2 == 0x8_0000_0000_0000 * c2 + d2
    requires t3 == 0x8_0000_0000_0000 * c3 + d3 && t4 == 0x8_0000_0000_0000 * c4 + d4
    ensures Eval5(t0, t1, t2, t3, t4) == Eval5(d0 + 19 * c4, d1 + c0, d2 + c1, d3 + c2, d4 + c3) + P * c4
  {
  }

  /** One pass over limbs of up to 64 bits. */
  method CarryWide(r0: u64, r1: u64, r2: u64, r3: u64, r4: u64) returns (out: Fe)
    requires r1 < 0x9a08000000000000 && r2 < 0x9a08000000000000 && r3 < 0x9a08000000000000 && r4 < 0x2e08000000000000
    ensures Cong(Eval(out), Eval5(r0, r1, r2, r3, r4)) && Bounded(out, TIGHT)
  {
    hide *;
    var f0, e0 := Split51(r0);
    var f1, e1 := Split51(r1 + f0);
    var f2, e2 := Split51(r2 + f1);
    var f3, e3 := Split51(r3 + f2);
    var f4, e4 := Split51(r4 + f3);
    CarriedValue(r0, r1, r2, r3, r4, f0, e0, f1, e1, f2, e2, f3, e3, f4, e4);
    out := [e0 + f4 * 19, e1, e2, e3, e4];
    TightBy(out);
    EvalIs(out);
    CongBy(Eval5(r0, r1, r2, r3, r4), Eval(out), f4);
    CongTrans(Eval5(r0, r1, r2, r3, r4), Eval(out), Eval(out));
  }

  /** The carries of one turn of `curve25519_square_times`. */
  method CarryAtOnce(t0: u128, t1: u128, t2: u128, t3: u128, t4: u128) returns (out: Fe)
    requires t0 < 0x4d00000000000_0000000000000000 && t1 < 0x4d00000000000_0000000000000000
      && t2 < 0x4d00000000000_0000000000000000
    requires t3 < 0x1700000000000_0000000000000000 && t4 < 0x500000000000_0000000000000000
    ensures Cong(Eval(out), Eval5(t0, t1, t2, t3, t4)) && Bounded(out, TIGHT)
  {
    hide *;
    var c0, d0 := Apart(t0);
    var c1, d1 := Apart(t1);
    var c2, d2 := Apart(t2);
    var c3, d3 := Apart(t3);
    var c4, d4 := Apart(t4);
    MovedAtOnce(t0, t1, t2, t3, t4, c0, d0, c1, d1, c2, d2, c3, d3, c4, d4);
    out := CarryWide(d0 + c4 * 19, d1 + c0, d2 + c1, d3 + c2, d4 + c3);
    ghost var v := Eval5(d0 + 19 * c4, d1 + c0, d2 + c1, d3 + c2, d4 + c3);
    CongBy(Eval5(t0, t1, t2, t3, t4), v, c4);
    CongFlip(Eval(out), v);
    CongTrans(Eval5(t0, t1, t2, t3, t4), v, Eval(out));
  }

  function Exp(x: int, n: nat): int {
    if n == 0 then 1 else x * Exp(x, n - 1)
  }

  lemma {:induction false} ExpAdd(x: int, m: nat, n: nat)
    ensures Exp(x, m + n) == Exp(x, m) * Exp(x, n)
  {
    if m > 0 {
      ExpAdd(x, m - 1, n);
      assert x * (Exp(x, m - 1) * Exp(x, n)) == (x * Exp(x, m - 1)) * Exp(x, n);
    }
  }

  lemma ExpOne(x: int)
    ensures Exp(x, 1) == x && Exp(x, 0) == 1
  {
  }

  /** The body of `curve25519_square_times`. */
  method SquareOnce(r: Fe) returns (out: Fe)
    requires Bounded(r, LOOSE)
    ensures Cong(Eval(out), Eval(r) * Eval(r)) && Bounded(out, TIGHT)
  {
    hide *;
    FoldedRanges(r, r);
    SquaresAre(r);
    out := CarryAtOnce(Square0(r), Square1(r), Square2(r), Square3(r), Square4(r));
    FoldedProduct(r, r);
    CongProduct(Eval(out), Eval5(Mul0(r, r), Mul1(r, r), Mul2(r, r), Mul3(r, r), Mul4(r, r)), Eval(r), Eval(r),
      HighColumns(r, r));
  }

  lemma TightIsLoose(a: Fe)
    requires Bounded(a, TIGHT)
    ensures Bounded(a, LOOSE)
  {
  }

  /** `curve25519_square_times`: `count` squarings, `count` at least 1. */
  method SquareTimes(a: Fe, count: nat) returns (out: Fe)
    requires Bounded(a, LOOSE) && count >= 1
    ensures Cong(Eval(out), Exp(Eval(a), Pow2(count))) && Bounded(out, TIGHT)
  {
    hide *;
    ghost var x := Eval(a);
    out := SquareOnce(a);
    ExpOne(x);
    Pow2Step(0);
    ExpAdd(x, 1, 1);
    var left := count - 1;
    while left != 0
      invariant 0 <= left < count && Bounded(out, TIGHT)
      invariant Cong(Eval(out), Exp(x, Pow2(count - left)))
    {
      ghost var n := Pow2(count - left);
      TightIsLoose(out);
      ghost var y := Eval(out);
      out := SquareOnce(out);
      CongMul(y, Exp(x, n), y, Exp(x, n));
      ExpAdd(x, n, n);
      Pow2Step(count - left);
      CongTrans(Eval(out), y * y, Exp(x, n + n));
      left := left - 1;
    }
  }
}
