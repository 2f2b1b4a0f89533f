/** `mul256_modm`: the product of two scalars modulo the group order. */
module ModmMul {
  import opened Binary
  import opened Words
  import opened Arith
  import opened Limbs
  import opened Columns
  import opened Modm
  import opened Barrett

  // The columns of the product.
  function Prod0(x: seq<int>, y: seq<int>): int
    requires |x| == |y| == 5
  {
    x[0] * y[0]
  }

  function Prod1(x: seq<int>, y: seq<int>): int
    requires |x| == |y| == 5
  {
    x[0] * y[1] + x[1] * y[0]
  }

  function Prod2(x: seq<int>, y: seq<int>): int
    requires |x| == |y| == 5
  {
    x[0] * y[2] + x[2] * y[0] + x[1] * y[1]
  }

  function Prod3(x: seq<int>, y: seq<int>): int
    requires |x| == |y| == 5
  {
    x[0] * y[3] + x[3] * y[0] + x[1] * y[2] + x[2] * y[1]
  }

  function Prod4(x: seq<int>, y: seq<int>): int
    requires |x| == |y| == 5
  {
    x[0] * y[4] + x[4] * y[0] + x[3] * y[1] + x[1] * y[3] + x[2] * y[2]
  }

  function Prod5(x: seq<int>, y: seq<int>): int
    requires |x| == |y| == 5
  {
    x[4] * y[1] + x[1] * y[4] + x[2] * y[3] + x[3] * y[2]
  }

  function Prod6(x: seq<int>, y: seq<int>): int
    requires |x| == |y| == 5
  {
    x[4] * y[2] + x[2] * y[4] + x[3] * y[3]
  }

  function Prod7(x: seq<int>, y: seq<int>): int
    requires |x| == |y| == 5
  {
    x[4] * y[3] + x[3] * y[4]
  }

  function Prod8(x: seq<int>, y: seq<int>): int
    requires |x| == |y| == 5
  {
    x[4] * y[4]
  }

  lemma ProductRange(a: int, b: int)
    requires 0 <= a < 0x100_0000_0000_0000 && 0 <= b < 0x100_0000_0000_0000
    ensures 0 <= a * b < 0x1000000000000_0000000000000000
  {
    MulBound(a, b, 0xff_ffff_ffff_ffff, 0xff_ffff_ffff_ffff);
  }

  lemma SmallProduct(a: int, b: int)
    requires 0 <= a < 0x1_0000_0000 && 0 <= b < 0x1_0000_0000
    ensures a * b < 0x1_0000_0000_0000_0000
  {
    MulBound(a, b, 0xffff_ffff, 0xffff_ffff);
  }

  lemma {:induction false} ProdRanges(x: seq<int>, y: seq<int>)
    requires Normal(x) && Normal(y)
    ensures |x| == |y| == 5
    ensures 0 <= Prod0(x, y) < 0x10000000000000_0000000000000000
      && 0 <= Prod1(x, y) < 0x10000000000000_0000000000000000 && 0 <= Prod2(x, y) < 0x10000000000000_0000000000000000
    ensures 0 <= Prod3(x, y) < 0x10000000000000_0000000000000000
      && 0 <= Prod4(x, y) < 0x10000000000000_0000000000000000 && 0 <= Prod5(x, y) < 0x10000000000000_0000000000000000
    ensures 0 <= Prod6(x, y) < 0x10000000000000_0000000000000000
      && 0 <= Prod7(x, y) < 0x10000000000000_0000000000000000 && 0 <= Prod8(x, y) < 0x10000000000000_0000000000000000
    ensures x[4] < 0x1_0000_0000 && y[4] < 0x1_0000_0000 ==> Prod8(x, y) < 0x1_0000_0000_0000_0000
  {
    forall i, j | 0 <= i < 5 && 0 <= j < 5 ensures 0 <= x[i] * y[j] < 0x1000000000000_0000000000000000 {
      ProductRange(x[i], y[j]);
    }
    if x[4] < 0x1_0000_0000 && y[4] < 0x1_0000_0000 {
      SmallProduct(x[4], y[4]);
    }
  }

  lemma Spread(a: int, u: int, v: int)
    ensures a * (u + 0x100_0000_0000_0000 * v) == a * u + 0x100_0000_0000_0000 * (a * v)
  {
  }

  lemma {:induction false} Row(a: int, y: seq<int>)
    requires |y| == 5
    ensures a * Horner(y[0], y[1], y[2], y[3], y[4]) == Horner(a * y[0], a * y[1], a * y[2], a * y[3], a * y[4])
  {
    Spread(a, y[3], y[4]);
    Spread(a, y[2], y[3] + 0x100_0000_0000_0000 * y[4]);
    Spread(a, y[1], y[2] + 0x100_0000_0000_0000 * (y[3] + 0x100_0000_0000_0000 * y[4]));
    Spread(a, y[0], y[1] + 0x100_0000_0000_0000 * (y[2] + 0x100_0000_0000_0000 * (y[3] + 0x100_0000_0000_0000 * y[4])));
  }

  lemma {:induction false} Rows(x: seq<int>, w: int)
    requires |x| == 5
    ensures Horner(x[0], x[1], x[2], x[3], x[4]) * w == Horner(x[0] * w, x[1] * w, x[2] * w, x[3] * w, x[4] * w)
  {
    var z := [x[0], x[1], x[2], x[3], x[4]];
    Row(w, z);
    assert forall i :: 0 <= i < 5 ==> w * x[i] == x[i] * w;
    assert Horner(x[0], x[1], x[2], x[3], x[4]) * w == w * Horner(x[0], x[1], x[2], x[3], x[4]);
  }

  /** The product is its columns. */
  lemma {:induction false} ProductIs(x: seq<int>, y: seq<int>)
    requires |x| == |y| == 5
    ensures Horner(x[0], x[1], x[2], x[3], x[4]) * Horner(y[0], y[1], y[2], y[3], y[4])
         == Horner(Prod0(x, y), Prod1(x, y), Prod2(x, y), Prod3(x, y),
                   Horner(Prod4(x, y), Prod5(x, y), Prod6(x, y), Prod7(x, y), Prod8(x, y)))
  {
    var w := Horner(y[0], y[1], y[2], y[3], y[4]);
    Rows(x, w);
    Row(x[0], y); Row(x[1], y); Row(x[2], y); Row(x[3], y); Row(x[4], y);
  }

  /** The columns as the code accumulates them: four finished limbs and the five columns above. */
  method ProductColumns(x: seq<u64>, y: seq<u64>)
    returns (d0: u64, d1: u64, d2: u64, d3: u64, c4: u128, c5: u128, c6: u128, c7: u128, c8: u128,
             ghost f0: nat, ghost f1: nat, ghost f2: nat, ghost f3: nat)
    requires Normal(x) && Normal(y)
    ensures |x| == |y| == 5 && d0 < 0x100_0000_0000_0000 && d1 < 0x100_0000_0000_0000 && d2 < 0x100_0000_0000_0000
      && d3 < 0x100_0000_0000_0000
    ensures Prod0(x, y) == 0x100_0000_0000_0000 * f0 + d0 && Prod1(x, y) + f0 == 0x100_0000_0000_0000 * f1 + d1
    ensures Prod2(x, y) + f1 == 0x100_0000_0000_0000 * f2 + d2 && Prod3(x, y) + f2 == 0x100_0000_0000_0000 * f3 + d3
    ensures c4 == Prod4(x, y) + f3 && c5 == Prod5(x, y) + High(c4) && c6 == Prod6(x, y) + High(c5)
    ensures c7 == Prod7(x, y) + High(c6) && c8 == Prod8(x, y) + High(c7)
    ensures x[4] < 0x1_0000_0000 && y[4] < 0x1_0000_0000 ==> High(c8) < 0x20_0000
  {
    hide *;
    ProdRanges(x, y);
    var f: u64;
    var c: u128 := Prod0(x, y);
    HighBound(c);
    d0, f := ColumnLimb(c);
    f0 := f;
    c := Prod1(x, y) + f;
    HighBound(c);
    d1, f := ColumnLimb(c);
    f1 := f;
    c := Prod2(x, y) + f;
    HighBound(c);
    d2, f := ColumnLimb(c);
    f2 := f;
    c := Prod3(x, y) + f;
    HighBound(c);
    d3, f := ColumnLimb(c);
    f3 := f;
    c4 := Prod4(x, y) + f;
    HighBound(c4);
    f := High(c4);
    c5 := Prod5(x, y) + f;
    HighBound(c5);
    f := High(c5);
    c6 := Prod6(x, y) + f;
    HighBound(c6);
    f := High(c6);
    c7 := Prod7(x, y) + f;
    HighBound(c7);
    f := High(c7);
    c8 := Prod8(x, y) + f;
    HighBound(c8);
  }

  /** The columns gathered: four limbs, and the columns above with their carries. */
  lemma {:induction false} LowLimbs(k0: int, k1: int, k2: int, k3: int, u: int, f0: int, d0: int, f1: int, d1: int,
                                    f2: int, d2: int, f3: int, d3: int)
    requires k0 == 0x100_0000_0000_0000 * f0 + d0 && k1 + f0 == 0x100_0000_0000_0000 * f1 + d1
      && k2 + f1 == 0x100_0000_0000_0000 * f2 + d2 && k3 + f2 == 0x100_0000_0000_0000 * f3 + d3
    ensures Horner(k0, k1, k2, k3, u) == Horner(d0, d1, d2, d3, u + f3)
  {
  }

  /** The upper columns, cut at bit 24 of the first. */
  lemma {:induction false} UpperLimbs(k4: int, k5: int, k6: int, k7: int, k8: int, f3: int, f4: int, h4: int, l4: int,
                                      f5: int, h5: int, l5: int, f6: int, h6: int, l6: int, f7: int, h7: int, l7: int,
                                      f8: int, h8: int, l8: int)
    requires k4 + f3 == 0x100_0000_0000_0000 * f4 + 0x100_0000 * h4 + l4
    requires k5 + f4 == 0x100_0000_0000_0000 * f5 + 0x100_0000 * h5 + l5
      && k6 + f5 == 0x100_0000_0000_0000 * f6 + 0x100_0000 * h6 + l6
    requires k7 + f6 == 0x100_0000_0000_0000 * f7 + 0x100_0000 * h7 + l7
      && k8 + f7 == 0x100_0000_0000_0000 * f8 + 0x100_0000 * h8 + l8
    ensures Horner(k4, k5, k6, k7, k8) + f3
         == l4 + 0x100_0000 * Horner(h4 + 0x1_0000_0000 * l5, h5 + 0x1_0000_0000 * l6, h6 + 0x1_0000_0000 * l7,
                                     h7 + 0x1_0000_0000 * l8, h8 + 0x1_0000_0000 * f8)
  {
  }

  /** A number given by four limbs and `v` above them, cut at bit 248 and at bit 264. */
  lemma {:induction false} Ends(d0: int, d1: int, d2: int, d3: int, l: int, q: int, w: int)
    requires 0 <= d0 < 0x100_0000_0000_0000 && 0 <= d1 < 0x100_0000_0000_0000 && 0 <= d2 < 0x100_0000_0000_0000
      && 0 <= d3 < 0x100_0000_0000_0000 && 0 <= l < 0x100_0000 && q >= 0
    requires w == (l + 0x100_0000 * q) % 0x100_0000_0000
    ensures var n := Horner(d0, d1, d2, d3, l + 0x100_0000 * q);
            n >= 0 && n / P248 == q && n % P264 == Horner(d0, d1, d2, d3, w)
  {
    var v := l + 0x100_0000 * q;
    var n := Horner(d0, d1, d2, d3, v);
    var low := Horner(d0, d1, d2, d3, l);
    assert n == P248 * q + low && 0 <= low < P248;
    var e := v / 0x100_0000_0000;
    assert v == 0x100_0000_0000 * e + w;
    var low' := Horner(d0, d1, d2, d3, w);
    assert n == P264 * e + low' && 0 <= low' < P264;
    hide *;
    DivUnique(n, P248, q, low);
    DivUnique(n, P264, e, low');
  }

  lemma {:induction false} LowOf(c: nat, u: int)
    ensures (c + 0x100_0000_0000_0000 * u) % 0x100_0000_0000 == (c % 0x1_0000_0000_0000_0000) % 0x100_0000_0000
  {
    Low40(c);
    DivUnique(c + 0x100_0000_0000_0000 * u, 0x100_0000_0000, c / 0x100_0000_0000 + 0x1_0000 * u,
              (c % 0x1_0000_0000_0000_0000) % 0x100_0000_0000);
  }

  /** What the limbs cut from the columns are: the two ends of the product. */
  lemma {:induction false} ProductEnds(x: seq<int>, y: seq<int>, d0: int, d1: int, d2: int, d3: int,
                                       c4: nat, c5: nat, c6: nat, c7: nat, c8: nat,
                                       f0: int, f1: int, f2: int, f3: int, p: nat, t: nat)
    requires Normal(x) && Normal(y) && p == 0x100_0000 && t == 0x1_0000_0000 && Cut(p, t)
    requires 0 <= d0 < 0x100_0000_0000_0000 && 0 <= d1 < 0x100_0000_0000_0000 && 0 <= d2 < 0x100_0000_0000_0000
      && 0 <= d3 < 0x100_0000_0000_0000
    requires Prod0(x, y) == 0x100_0000_0000_0000 * f0 + d0 && Prod1(x, y) + f0 == 0x100_0000_0000_0000 * f1 + d1
    requires Prod2(x, y) + f1 == 0x100_0000_0000_0000 * f2 + d2 && Prod3(x, y) + f2 == 0x100_0000_0000_0000 * f3 + d3
    requires c4 == Prod4(x, y) + f3 && c5 == Prod5(x, y) + High(c4) && c6 == Prod6(x, y) + High(c5)
    requires c7 == Prod7(x, y) + High(c6) && c8 == Prod8(x, y) + High(c7)
    ensures Val(x) * Val(y) >= 0
    ensures Val(x) * Val(y) / P248
         == Horner(Upper(c4, p, t) + t * Below(c5, p), Upper(c5, p, t) + t * Below(c6, p),
                   Upper(c6, p, t) + t * Below(c7, p), Upper(c7, p, t) + t * Below(c8, p),
                   Upper(c8, p, t) + t * High(c8))
    ensures Val(x) * Val(y) % P264 == Horner(d0, d1, d2, d3, (c4 % 0x1_0000_0000_0000_0000) % 0x100_0000_0000)
  {
    hide *;
    NormalVal(x);
    NormalVal(y);
    ProductIs(x, y);
    ColumnParts(c4, p, t); ColumnParts(c5, p, t); ColumnParts(c6, p, t); ColumnParts(c7, p, t); ColumnParts(c8, p, t);
    var k4, k5, k6, k7, k8 := Prod4(x, y), Prod5(x, y), Prod6(x, y), Prod7(x, y), Prod8(x, y);
    var u := Horner(k4, k5, k6, k7, k8);
    LowLimbs(Prod0(x, y), Prod1(x, y), Prod2(x, y), Prod3(x, y), u, f0, d0, f1, d1, f2, d2, f3, d3);
    var l4 := Below(c4, p);
    UpperLimbs(k4, k5, k6, k7, k8, f3, High(c4), Upper(c4, p, t), l4, High(c5), Upper(c5, p, t), Below(c5, p),
               High(c6), Upper(c6, p, t), Below(c6, p), High(c7), Upper(c7, p, t), Below(c7, p),
               High(c8), Upper(c8, p, t), Below(c8, p));
    var a0, a1, a2, a3, a4 := Upper(c4, p, t) + t * Below(c5, p), Upper(c5, p, t) + t * Below(c6, p),
      Upper(c6, p, t) + t * Below(c7, p), Upper(c7, p, t) + t * Below(c8, p), Upper(c8, p, t) + t * High(c8);
    HornerPositive(a0, a1, a2, a3, a4);
    UpperIs(k4, k5, k6, k7, k8);
    LowOf(c4, k5 + 0x100_0000_0000_0000 * (k6 + 0x100_0000_0000_0000 * (k7 + 0x100_0000_0000_0000 * k8)));
    Ends(d0, d1, d2, d3, l4, Horner(a0, a1, a2, a3, a4), (c4 % 0x1_0000_0000_0000_0000) % 0x100_0000_0000);
  }

  lemma UpperIs(k4: int, k5: int, k6: int, k7: int, k8: int)
    ensures Horner(k4, k5, k6, k7, k8)
      == k4 + 0x100_0000_0000_0000
      * (k5 + 0x100_0000_0000_0000 * (k6 + 0x100_0000_0000_0000 * (k7 + 0x100_0000_0000_0000 * k8)))
  {
  }

  lemma HornerPositive(a0: nat, a1: nat, a2: nat, a3: nat, a4: nat)
    ensures Horner(a0, a1, a2, a3, a4) >= 0
  {
  }

  const P256: nat := 0x1_0000000000000000_0000000000000000_0000000000000000_0000000000000000

  lemma Below256(x: seq<int>)
    requires Normal(x) && x[4] < 0x1_0000_0000
    ensures 0 <= Val(x) < P256
  {
    NormalVal(x);
    hide Val;
  }

  lemma {:induction false} ProductBelow(x: seq<int>, y: seq<int>)
    requires Normal(x) && Normal(y) && x[4] < 0x1_0000_0000 && y[4] < 0x1_0000_0000
    ensures 0 <= Val(x) * Val(y) && Val(x) * Val(y) / P248 < P264
  {
    Below256(x);
    Below256(y);
    var n := Val(x) * Val(y);
    MulBound(Val(x), Val(y), P256 - 1, P256 - 1);
    assert (P256 - 1) * (P256 - 1) < P248 * P264;
    var q := n / P248;
    assert n == P248 * q + n % P248;
    hide *;
    if q > P264 {
      MulGap(P248, q, P264);
    }
  }

  /** `mul256_modm`: the destination may be one of the operands. */
  method Mul256(r: array<u64>, x: array<u64>, y: array<u64>)
    requires r.Length == 5 && x.Length == 5 && y.Length == 5 && Normal(x[..]) && Normal(y[..])
    requires x[4] < 0x1_0000_0000 && y[4] < 0x1_0000_0000
    modifies r
    ensures Normal(r[..]) && Val(r[..]) == old(Val(x[..]) * Val(y[..])) % ORDER
  {
    hide *;
    CutIs();
    var p, t := 0x100_0000, 0x1_0000_0000;
    ghost var xs, ys := x[..], y[..];
    var d0, d1, d2, d3, c4, c5, c6, c7, c8, f0, f1, f2, f3 := ProductColumns(x[..], y[..]);
    var r1 := new u64[5];
    r1[0], r1[1], r1[2], r1[3], r1[4] := d0, d1, d2, d3, (c4 % 0x1_0000_0000_0000_0000) % 0x100_0000_0000;
    var l0 := CutLimb(c4, c5, p, t);
    var l1 := CutLimb(c5, c6, p, t);
    var l2 := CutLimb(c6, c7, p, t);
    var l3 := CutLimb(c7, c8, p, t);
    var l4 := LastLimb(c8, High(c8), p, t);
    var q1 := [l0, l1, l2, l3, l4];
    NormalBy(q1);
    NormalVal(q1);
    NormalBy(r1[..]);
    NormalVal(r1[..]);
    ProductEnds(xs, ys, d0, d1, d2, d3, c4, c5, c6, c7, c8, f0, f1, f2, f3, p, t);
    ProductBelow(xs, ys);
    BarrettReduce(r, q1, r1, Val(xs) * Val(ys));
  }
}
