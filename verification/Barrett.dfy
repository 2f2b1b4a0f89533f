/** `barrett_reduce256_modm`: a number below 2^512 modulo the group order, from its two ends. */
module Barrett {
  import opened Binary
  import opened Words
  import opened Arith
  import opened Limbs
  import opened Columns
  import opened Modm

  /** `floor(2^512 / ORDER)` */
  const MU: nat := 0xf_ffffffffffffffff_ffffffffffffffeb_2106215d086329a7_ed9ce5a30a2c131b

  const P227: nat := 0x800000000_0000000000000000_0000000000000000_0000000000000000
  const P248: nat := 0x100000000000000_0000000000000000_0000000000000000_0000000000000000
  const P264: nat := 0x100_0000000000000000_0000000000000000_0000000000000000_0000000000000000

  lemma MuIs()
    ensures MU * ORDER <= P248 * P264 < (MU + 1) * ORDER
  {
  }

  // ---------- the quotient ----------

  // The columns of `MU * q` from the fourth on.
  function Mu3(q: seq<int>): int
    requires |q| == 5
  {
    0x9ce5a30a2c131b * q[3] + 0xffffffffffffff * q[0] + 0x215d086329a7ed * q[2] + 0xffffffffeb2106 * q[1]
  }

  function Mu4(q: seq<int>): int
    requires |q| == 5
  {
    0x9ce5a30a2c131b * q[4] + 0xfffffffff * q[0] + 0xffffffffffffff * q[1] + 0x215d086329a7ed * q[3]
      + 0xffffffffeb2106 * q[2]
  }

  function Mu5(q: seq<int>): int
    requires |q| == 5
  {
    0xfffffffff * q[1] + 0x215d086329a7ed * q[4] + 0xffffffffeb2106 * q[3] + 0xffffffffffffff * q[2]
  }

  function Mu6(q: seq<int>): int
    requires |q| == 5
  {
    0xfffffffff * q[2] + 0xffffffffeb2106 * q[4] + 0xffffffffffffff * q[3]
  }

  function Mu7(q: seq<int>): int
    requires |q| == 5
  {
    0xfffffffff * q[3] + 0xffffffffffffff * q[4]
  }

  function Mu8(q: seq<int>): int
    requires |q| == 5
  {
    0xfffffffff * q[4]
  }

  lemma MuRanges(q: seq<int>)
    requires Normal(q)
    ensures |q| == 5 && 0 <= Mu3(q) < 0x10000000000000_0000000000000000
      && 0 <= Mu4(q) < 0x10000000000000_0000000000000000
    ensures 0 <= Mu5(q) < 0x10000000000000_0000000000000000 && 0 <= Mu6(q) < 0x10000000000000_0000000000000000
    ensures 0 <= Mu7(q) < 0x10000000000000_0000000000000000 && 0 <= Mu8(q) < 0x10000000000000_0000000000000000
    ensures q[4] < 0x100_0000_0000 ==> Mu8(q) < 0x1000_0000000000000000
  {
  }

  /** `MU * q` is the columns that are computed and three small ones that are not. */
  lemma {:induction false} MuProduct(q: seq<int>)
    requires Normal(q)
    ensures var s := 0x10000000000_0000000000000000_0000000000000000
      * (Mu3(q) + 0x100_0000_0000_0000 * Horner(Mu4(q), Mu5(q), Mu6(q), Mu7(q), Mu8(q)));
            s <= MU * Val(q) < s + 0x400000000_0000000000000000_0000000000000000_0000000000000000
  {
    NormalVal(q);
    hide Val;
  }

  /** The columns, with their carries, cut at bit 40 of the fifth one. */
  lemma {:induction false} QuotientParts(k3: int, k4: int, k5: int, k6: int, k7: int, k8: int,
                                         f3: int, l3: int, f4: int, h4: int, l4: int, f5: int, h5: int, l5: int,
                                         f6: int, h6: int, l6: int, f7: int, h7: int, l7: int, f8: int, h8: int,
                                         l8: int)
    requires k3 == 0x100_0000_0000_0000 * f3 + l3 && k4 + f3 == 0x100_0000_0000_0000 * f4 + 0x100_0000_0000 * h4 + l4
    requires k5 + f4 == 0x100_0000_0000_0000 * f5 + 0x100_0000_0000 * h5 + l5
      && k6 + f5 == 0x100_0000_0000_0000 * f6 + 0x100_0000_0000 * h6 + l6
    requires k7 + f6 == 0x100_0000_0000_0000 * f7 + 0x100_0000_0000 * h7 + l7
      && k8 + f7 == 0x100_0000_0000_0000 * f8 + 0x100_0000_0000 * h8 + l8
    ensures k3 + 0x100_0000_0000_0000 * Horner(k4, k5, k6, k7, k8)
         == l3 + 0x100_0000_0000_0000 * (l4 + 0x100_0000_0000
            * Horner(h4 + 0x1_0000 * l5, h5 + 0x1_0000 * l6, h6 + 0x1_0000 * l7, h7 + 0x1_0000 * l8,
              h8 + 0x1_0000 * f8))
  {
  }

  lemma CutIs()
    ensures Cut(0x100_0000_0000, 0x1_0000) && Cut(0x100_0000, 0x1_0000_0000)
  {
  }

  /** The columns as the code accumulates them, with the carry of the column before. */
  method MuColumns(q: seq<u64>) returns (c3: u128, c4: u128, c5: u128, c6: u128, c7: u128, c8: u128)
    requires Normal(q)
    ensures c3 == Mu3(q) && c4 == Mu4(q) + High(c3) && c5 == Mu5(q) + High(c4)
    ensures c6 == Mu6(q) + High(c5) && c7 == Mu7(q) + High(c6) && c8 == Mu8(q) + High(c7)
    ensures High(c8) < 0x1_0000_0000_0000_0000 && (q[4] < 0x100_0000_0000 ==> High(c8) < 0x20_0000)
  {
    hide *;
    MuRanges(q);
    c3 := Mu3(q);
    HighBound(c3);
    var f: u64 := High(c3);
    c4 := Mu4(q) + f;
    HighBound(c4);
    f := High(c4);
    c5 := Mu5(q) + f;
    HighBound(c5);
    f := High(c5);
    c6 := Mu6(q) + f;
    HighBound(c6);
    f := High(c6);
    c7 := Mu7(q) + f;
    HighBound(c7);
    f := High(c7);
    c8 := Mu8(q) + f;
    HighBound(c8);
  }

  lemma HighBound(c: nat)
    ensures c < 0x20000000000000_0000000000000000 ==> High(c) < 0x1_0000_0000_0000_0000
    ensures c < 0x2000_0000000000000000 ==> High(c) < 0x20_0000
  {
  }

  lemma {:induction false} QuotientBound(p: int, s: int, l3: int, l4: int, v: int)
    requires 0 <= l3 < 0x100_0000_0000_0000 && 0 <= l4 < 0x100_0000_0000
    requires s == 0x10000000000_0000000000000000_0000000000000000
      * (l3 + 0x100_0000_0000_0000 * (l4 + 0x100_0000_0000 * v))
    requires s <= p < s + 0x400000000_0000000000000000_0000000000000000_0000000000000000
    ensures 0 <= p - P264 * v < P264 + P227
  {
  }

  /** What the columns say about the limbs cut from them. */
  lemma {:induction false} QuotientValue(q: seq<int>, c3: nat, c4: nat, c5: nat, c6: nat, c7: nat, c8: nat, p: nat,
                                         t: nat)
    requires Normal(q) && p == 0x100_0000_0000 && t == 0x1_0000 && Cut(p, t)
    requires c3 == Mu3(q) && c4 == Mu4(q) + High(c3) && c5 == Mu5(q) + High(c4)
    requires c6 == Mu6(q) + High(c5) && c7 == Mu7(q) + High(c6) && c8 == Mu8(q) + High(c7)
    ensures var v := Horner(Upper(c4, p, t) + t * Below(c5, p), Upper(c5, p, t) + t * Below(c6, p),
                            Upper(c6, p, t) + t * Below(c7, p), Upper(c7, p, t) + t * Below(c8, p),
                            Upper(c8, p, t) + t * High(c8));
            0 <= MU * Val(q) - P264 * v < P264 + P227
  {
    hide *;
    ColumnParts(c3, p, t); ColumnParts(c4, p, t); ColumnParts(c5, p, t);
    ColumnParts(c6, p, t); ColumnParts(c7, p, t); ColumnParts(c8, p, t);
    MuProduct(q);
    MuRanges(q);
    var k3, k4, k5, k6, k7, k8 := Mu3(q), Mu4(q), Mu5(q), Mu6(q), Mu7(q), Mu8(q);
    var l3 := p * Upper(c3, p, t) + Below(c3, p);
    QuotientParts(k3, k4, k5, k6, k7, k8, High(c3), l3,
                  High(c4), Upper(c4, p, t), Below(c4, p), High(c5), Upper(c5, p, t), Below(c5, p),
                  High(c6), Upper(c6, p, t), Below(c6, p), High(c7), Upper(c7, p, t), Below(c7, p),
                  High(c8), Upper(c8, p, t), Below(c8, p));
    QuotientBound(MU * Val(q),
      0x10000000000_0000000000000000_0000000000000000 * (k3 + 0x100_0000_0000_0000 * Horner(k4, k5, k6, k7, k8)), l3,
      Below(c4, p),
                  Horner(Upper(c4, p, t) + t * Below(c5, p), Upper(c5, p, t) + t * Below(c6, p),
                         Upper(c6, p, t) + t * Below(c7, p), Upper(c7, p, t) + t * Below(c8, p),
                         Upper(c8, p, t) + t * High(c8)));
  }

  /** The limb between the cuts of two columns. */
  method CutLimb(c: u128, next: u128, p: nat, t: nat) returns (limb: u64)
    requires Cut(p, t)
    ensures limb == Upper(c, p, t) + t * Below(next, p) && limb < 0x100_0000_0000_0000
  {
    LimbJoins(c, next, p, t);
    hide *;
    limb := Or(Upper(c, p, t), Lower(next, p, t));
  }

  lemma ShiftFits(f: nat, t: nat, p: nat)
    requires Cut(p, t) && t * f < 0x1_0000_0000_0000_0000
    ensures (f * t) % 0x1_0000_0000_0000_0000 == t * f && t <= 0x1_0000_0000
  {
    var g := f * t;
    assert g == t * f;
  }

  /** The last limb takes all that is above the cut. */
  method LastLimb(c: u128, f: u64, p: nat, t: nat) returns (limb: u64)
    requires Cut(p, t) && t * f < 0x80000000000000
    ensures limb == Upper(c, p, t) + t * f && limb < 0x100_0000_0000_0000
  {
    LimbJoins(c, f, p, t);
    ColumnParts(c, p, t);
    ShiftFits(f, t, p);
    hide *;
    limb := Or(Upper(c, p, t), (f * t) % 0x1_0000_0000_0000_0000);
  }

  /** The quotient estimate: `q3 = floor(MU * q1 / 2^264)`, but for the partial products that are skipped. */
  method Quotient(q: seq<u64>) returns (q3: seq<u64>)
    requires Normal(q) && q[4] < 0x100_0000_0000
    ensures Normal(q3)
    ensures 0 <= MU * Val(q) - P264 * Val(q3) < P264 + P227
  {
    hide *;
    CutIs();
    var p, t := 0x100_0000_0000, 0x1_0000;
    var c3, c4, c5, c6, c7, c8 := MuColumns(q);
    var l0 := CutLimb(c4, c5, p, t);
    var l1 := CutLimb(c5, c6, p, t);
    var l2 := CutLimb(c6, c7, p, t);
    var l3 := CutLimb(c7, c8, p, t);
    var l4 := LastLimb(c8, High(c8), p, t);
    q3 := [l0, l1, l2, l3, l4];
    NormalBy(q3);
    NormalVal(q3);
    QuotientValue(q, c3, c4, c5, c6, c7, c8, p, t);
  }

  // ---------- the product with the order ----------

  // The five low columns of `ORDER * q`.
  function Order0(q: seq<int>): int
    requires |q| == 5
  {
    0x12631a5cf5d3ed * q[0]
  }

  function Order1(q: seq<int>): int
    requires |q| == 5
  {
    0x12631a5cf5d3ed * q[1] + 0xf9dea2f79cd658 * q[0]
  }

  function Order2(q: seq<int>): int
    requires |q| == 5
  {
    0x12631a5cf5d3ed * q[2] + 0x14de * q[0] + 0xf9dea2f79cd658 * q[1]
  }

  function Order3(q: seq<int>): int
    requires |q| == 5
  {
    0x12631a5cf5d3ed * q[3] + 0 * q[0] + 0xf9dea2f79cd658 * q[2] + 0x14de * q[1]
  }

  function Order4(q: seq<int>): int
    requires |q| == 5
  {
    0x12631a5cf5d3ed * q[4] + 0x10000000 * q[0] + 0 * q[1] + 0xf9dea2f79cd658 * q[3] + 0x14de * q[2]
  }

  lemma OrderRanges(q: seq<int>)
    requires Normal(q)
    ensures |q| == 5 && 0 <= Order0(q) < 0x10000000000000_0000000000000000
      && 0 <= Order1(q) < 0x10000000000000_0000000000000000 && 0 <= Order2(q) < 0x10000000000000_0000000000000000
    ensures 0 <= Order3(q) < 0x10000000000000_0000000000000000 && 0 <= Order4(q) < 0x10000000000000_0000000000000000
  {
  }

  /** The columns that are not computed weigh at least 2^280. */
  lemma {:induction false} OrderProduct(q: seq<int>) returns (k: int)
    requires Normal(q)
    ensures ORDER * Val(q) == Horner(Order0(q), Order1(q), Order2(q), Order3(q), Order4(q)) + P264 * (0x1_0000 * k)
  {
    NormalVal(q);
    hide Val;
    k := 0xf9dea2f79cd658 * q[4] + 0x14de * q[3] + 0x10000000 * q[1]
       + 0x100_0000_0000_0000 * (0x14de * q[4] + 0x10000000 * q[2]
       + 0x100_0000_0000_0000 * (0x10000000 * q[3] + 0x100_0000_0000_0000 * (0x10000000 * q[4])));
  }

  lemma {:induction false} LowColumns(n0: int, n1: int, n2: int, n3: int, n4: int, f0: int, d0: int, f1: int, d1: int,
                                      f2: int, d2: int, f3: int, d3: int, f4: int, d4: int)
    requires n0 == 0x100_0000_0000_0000 * f0 + d0 && n1 + f0 == 0x100_0000_0000_0000 * f1 + d1
      && n2 + f1 == 0x100_0000_0000_0000 * f2 + d2
    requires n3 + f2 == 0x100_0000_0000_0000 * f3 + d3 && n4 + f3 == 0x100_0000_0000 * f4 + d4
    ensures Horner(n0, n1, n2, n3, n4) == Horner(d0, d1, d2, d3, d4) + P264 * f4
  {
  }

  /** `lo128(c) & 0xffffffffffffff` and the rest of a column. */
  method ColumnLimb(c: u128) returns (limb: u64, f: u64)
    requires High(c) < 0x1_0000_0000_0000_0000
    ensures c == 0x100_0000_0000_0000 * f + limb && limb < 0x100_0000_0000_0000 && f == High(c)
  {
    limb, f := (c % 0x1_0000_0000_0000_0000) % 0x100_0000_0000_0000, High(c);
  }

  /** `r2`: the low 264 bits of `ORDER * q3`. */
  method TimesOrder(q: seq<u64>) returns (r2: seq<u64>)
    requires Normal(q)
    ensures Normal(r2) && r2[4] < 0x100_0000_0000 && Val(r2) == (ORDER * Val(q)) % P264
  {
    hide *;
    OrderRanges(q);
    var c: u128 := Order0(q);
    HighBound(c);
    var d0, f0 := ColumnLimb(c);
    c := Order1(q) + f0;
    HighBound(c);
    var d1, f1 := ColumnLimb(c);
    c := Order2(q) + f1;
    HighBound(c);
    var d2, f2 := ColumnLimb(c);
    c := Order3(q) + f2;
    HighBound(c);
    var d3, f3 := ColumnLimb(c);
    c := Order4(q) + f3;
    var d4 := (c % 0x1_0000_0000_0000_0000) % 0x100_0000_0000;
    r2 := [d0, d1, d2, d3, d4];
    NormalBy(r2);
    NormalVal(r2);
    ghost var f4 := c / 0x100_0000_0000;
    Low40(c);
    LowColumns(Order0(q), Order1(q), Order2(q), Order3(q), Order4(q), f0, d0, f1, d1, f2, d2, f3, d3, f4, d4);
    ghost var k := OrderProduct(q);
    Below264(d0, d1, d2, d3, d4);
    Gathered(f4, k);
    DivUnique(ORDER * Val(q), P264, f4 + 0x1_0000 * k, Val(r2));
  }

  lemma Gathered(a: int, k: int)
    ensures P264 * a + P264 * (0x1_0000 * k) == P264 * (a + 0x1_0000 * k)
  {
  }

  lemma Low40(c: nat)
    ensures c == 0x100_0000_0000 * (c / 0x100_0000_0000) + (c % 0x1_0000_0000_0000_0000) % 0x100_0000_0000
  {
  }

  lemma Below264(d0: int, d1: int, d2: int, d3: int, d4: int)
    requires 0 <= d0 < 0x100_0000_0000_0000 && 0 <= d1 < 0x100_0000_0000_0000 && 0 <= d2 < 0x100_0000_0000_0000
    requires 0 <= d3 < 0x100_0000_0000_0000 && 0 <= d4 < 0x100_0000_0000
    ensures 0 <= Horner(d0, d1, d2, d3, d4) < P264
  {
  }

  // ---------- the remainder ----------

  lemma {:induction false} TopDifference(a: u64, pb: u64, b: nat)
    requires a < 0x100_0000_0000 && pb <= 0x100_0000_0000 && b == Lt(a, pb)
    ensures b == if a < pb then 1 else 0
    ensures Diff(a, pb, b, 0x100_0000_0000) == a - pb + 0x100_0000_0000 * b < 0x100_0000_0000
  {
    LtIs(a, pb);
    hide Lt;
  }

  lemma {:induction false} LimbsDifference(x: seq<int>, y: seq<int>, t: seq<int>, b0: int, b1: int, b2: int, b3: int,
                                           b4: int)
    requires |x| == |y| == |t| == 5
    requires t[0] == x[0] - y[0] + 0x100_0000_0000_0000 * b0 && t[1] == x[1] - (b0 + y[1]) + 0x100_0000_0000_0000 * b1
    requires t[2] == x[2] - (b1 + y[2]) + 0x100_0000_0000_0000 * b2
      && t[3] == x[3] - (b2 + y[3]) + 0x100_0000_0000_0000 * b3
    requires t[4] == x[4] - (b3 + y[4]) + 0x100_0000_0000 * b4
    ensures Horner(t[0], t[1], t[2], t[3], t[4])
         == Horner(x[0], x[1], x[2], x[3], x[4]) - Horner(y[0], y[1], y[2], y[3], y[4]) + P264 * b4
  {
  }

  /** `r1 - r2` modulo 2^264; the destination may be `r1` itself. */
  method SubtractInto(r: array<u64>, r1: array<u64>, r2: seq<u64>)
    requires r.Length == 5 && r1.Length == 5 && Normal(r1[..]) && r1[4] < 0x100_0000_0000
    requires Normal(r2) && r2[4] < 0x100_0000_0000
    modifies r
    ensures Normal(r[..]) && 0 <= Val(r[..]) < P264
    ensures Val(r[..]) == old(Val(r1[..])) - Val(r2) || Val(r[..]) == old(Val(r1[..])) - Val(r2) + P264
  {
    hide *;
    ghost var x: seq<int> := r1[..];
    NormalVal(x);
    NormalVal(r2);
    var pb := r2[0];
    var b0 := Lt(r1[0], pb);
    LimbDifference(r1[0], pb, b0, 0x100_0000_0000_0000);
    r[0] := Diff(r1[0], pb, b0, 0x100_0000_0000_0000);
    pb := b0 + r2[1];
    var b1 := Lt(r1[1], pb);
    LimbDifference(r1[1], pb, b1, 0x100_0000_0000_0000);
    r[1] := Diff(r1[1], pb, b1, 0x100_0000_0000_0000);
    pb := b1 + r2[2];
    var b2 := Lt(r1[2], pb);
    LimbDifference(r1[2], pb, b2, 0x100_0000_0000_0000);
    r[2] := Diff(r1[2], pb, b2, 0x100_0000_0000_0000);
    pb := b2 + r2[3];
    var b3 := Lt(r1[3], pb);
    LimbDifference(r1[3], pb, b3, 0x100_0000_0000_0000);
    r[3] := Diff(r1[3], pb, b3, 0x100_0000_0000_0000);
    pb := b3 + r2[4];
    var b4 := Lt(r1[4], pb);
    TopDifference(r1[4], pb, b4);
    r[4] := Diff(r1[4], pb, b4, 0x100_0000_0000);
    ghost var t: seq<int> := r[..];
    LimbsDifference(x, r2, t, b0, b1, b2, b3, b4);
    NormalBy(t);
    NormalVal(t);
    Below264(t[0], t[1], t[2], t[3], t[4]);
  }

  /** The estimate is at most two too small: the heart of the reduction. */
  lemma {:induction false} RemainderBound(q1: int, x0: int, q: int)
    requires 0 <= q1 < P264 && 0 <= x0 < P248
    requires 0 <= MU * q1 - P264 * q < P264 + P227
    ensures 0 <= P248 * q1 + x0 - ORDER * q < 3 * ORDER
  {
  }

  /** Both ends are known modulo 2^264, and the remainder is below that. */
  lemma {:induction false} RemainderIs(x: nat, q: int, r1: nat, r2: nat, v: int)
    requires r1 == x % P264 && ORDER * q >= 0 && r2 == (ORDER * q) % P264
    requires 0 <= x - ORDER * q < 3 * ORDER
    requires 0 <= v < P264 && (v == r1 - r2 || v == r1 - r2 + P264)
    ensures v == x - ORDER * q
  {
    var n := ORDER * q;
    var a, k := x / P264, n / P264;
    assert x == P264 * a + r1 && n == P264 * k + r2;
    assert 3 * ORDER < P264;
    hide ORDER, P264;
    var e := if v == r1 - r2 then a - k else a - k - 1;
    assert x - n == P264 * e + v by {
      Factored264(a, k);
    }
    DivUnique(x - n, P264, e, v);
    DivUnique(x - n, P264, 0, x - n);
  }

  lemma Factored264(a: int, k: int)
    ensures P264 * a - P264 * k == P264 * (a - k) && P264 * (a - k - 1) == P264 * (a - k) - P264
  {
  }

  lemma Twice(d: int, v1: int, v2: int, x: nat, q: int)
    requires 0 <= d < 3 * ORDER && x == ORDER * q + d
    requires v1 == (if d < ORDER then d else d - ORDER) && v2 == (if v1 < ORDER then v1 else v1 - ORDER)
    ensures ORDER > 0 && v2 == x % ORDER
  {
    var j := if d < ORDER then 0 else if d < 2 * ORDER then 1 else 2;
    assert v2 == d - ORDER * j && 0 <= v2 < ORDER;
    assert x == ORDER * (q + j) + v2;
    DivUnique(x, ORDER, q + j, v2);
  }

  /**
   * `barrett_reduce256_modm`: from `x >> 248` and `x mod 2^264`, the residue of `x` modulo the order.
   * The destination may be `r1`.
   */
  method BarrettReduce(r: array<u64>, q1: seq<u64>, r1: array<u64>, ghost x: nat)
    requires r.Length == 5 && r1.Length == 5 && Normal(q1) && Normal(r1[..])
    requires Val(q1) == x / P248 < P264 && Val(r1[..]) == x % P264
    modifies r
    ensures Normal(r[..]) && Val(r[..]) == x % ORDER
  {
    hide *;
    TopOf264(q1);
    TopOf264(r1[..]);
    var q3 := Quotient(q1);
    var r2 := TimesOrder(q3);
    SubtractInto(r, r1, r2);
    ghost var d := Val(r[..]);
    Remainder(q1, q3, r2, x, d);
    Reduce256(r);
    ghost var v1 := Val(r[..]);
    Reduce256(r);
    Twice(d, v1, Val(r[..]), x, Val(q3));
  }

  lemma TopOf264(s: seq<int>)
    requires Normal(s) && Val(s) < P264
    ensures |s| == 5 && s[4] < 0x100_0000_0000 && 0 <= Val(s)
  {
    NormalVal(s);
    hide Val;
  }

  lemma {:induction false} Remainder(q1: seq<int>, q3: seq<int>, r2: seq<int>, x: nat, d: int)
    requires Normal(q1) && Normal(q3) && Val(q1) == x / P248 < P264
    requires 0 <= MU * Val(q1) - P264 * Val(q3) < P264 + P227 && Val(r2) == (ORDER * Val(q3)) % P264
    requires 0 <= d < P264 && (d == x % P264 - Val(r2) || d == x % P264 - Val(r2) + P264)
    ensures x == ORDER * Val(q3) + d && 0 <= d < 3 * ORDER
  {
    var q := Val(q3);
    ValPositive(q1);
    ValPositive(q3);
    var x0 := x % P248;
    assert x == P248 * Val(q1) + x0;
    RemainderBound(Val(q1), x0, q);
    assert ORDER * q >= 0;
    hide *;
    RemainderIs(x, q, x % P264, Val(r2), d);
  }

  lemma ValPositive(s: seq<int>)
    requires Normal(s)
    ensures Val(s) >= 0
  {
    NormalVal(s);
    hide Val;
  }
}
