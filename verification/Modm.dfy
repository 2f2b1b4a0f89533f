/** Arithmetic modulo the group order, in five limbs of 56 bits: one conditional subtraction, and addition. */
module Modm {
  import opened Words
  import opened Limbs

  /** The group order, 2^252 + 27742317777372353535851937790883648493. */
  const ORDER: nat := 0x1000000000000000_0000000000000000_14def9dea2f79cd6_5812631a5cf5d3ed

  /** Five limbs, each below 2^56. */
  ghost predicate Normal(s: seq<int>) {
    |s| == 5 && forall i :: 0 <= i < 5 ==> 0 <= s[i] < 0x100_0000_0000_0000
  }

  /** `lt_modm`: the sign bit of the wrapped difference. */
  function Lt(a: u64, b: u64): nat {
    ((a - b) as int % WORD) / 0x8000_0000_0000_0000
  }

  /** A limb of a difference, with the borrow `b` returned at weight `top`. */
  function Diff(a: u64, pb: u64, b: nat, top: nat): (d: nat)
    ensures d < 0x1_0000_0000_0000_0000
  {
    (a - pb + b * top) as int % WORD
  }

  lemma LtIs(a: u64, b: u64)
    requires a < 0x8000_0000_0000_0000 && b < 0x8000_0000_0000_0000
    ensures Lt(a, b) == if a < b then 1 else 0
  {
  }

  lemma {:induction false} LimbDifference(a: u64, pb: u64, b: nat, top: nat)
    requires a < 0x100_0000_0000_0000 && pb <= 0x100_0000_0000_0000 && b == Lt(a, pb)
    ensures b == if a < pb then 1 else 0
    ensures top == 0x100_0000_0000_0000 ==> Diff(a, pb, b, top) == a - pb + top * b < top
    ensures b == 0 ==> Diff(a, pb, b, top) == a - pb
  {
    LtIs(a, pb);
    hide Lt;
  }

  /** The value of five limbs. */
  function Horner(a0: int, a1: int, a2: int, a3: int, a4: int): int {
    a0 + 0x100_0000_0000_0000 * (a1 + 0x100_0000_0000_0000 * (a2
    + 0x100_0000_0000_0000 * (a3 + 0x100_0000_0000_0000 * a4)))
  }

  lemma {:induction false} NormalVal(s: seq<int>)
    requires Normal(s)
    ensures |s| == 5 && Val(s) == Horner(s[0], s[1], s[2], s[3], s[4])
    ensures forall i :: 0 <= i < 5 ==> 0 <= s[i] < 0x100_0000_0000_0000
  {
    hide Val;
    Val5(s);
  }

  lemma NormalBy(s: seq<int>)
    requires |s| == 5 && 0 <= s[0] < 0x100_0000_0000_0000 && 0 <= s[1] < 0x100_0000_0000_0000
    requires 0 <= s[2] < 0x100_0000_0000_0000 && 0 <= s[3] < 0x100_0000_0000_0000 && 0 <= s[4] < 0x100_0000_0000_0000
    ensures Normal(s)
  {
  }

  /** The limb-wise difference with `ORDER`, and its last borrow. */
  lemma {:induction false} OrderDifference(x: seq<int>, t: seq<int>, b0: int, b1: int, b2: int, b3: int, b4: int)
    requires |x| == |t| == 5 && forall i :: 0 <= i < 5 ==> 0 <= x[i] < 0x100_0000_0000_0000
    requires b0 == if x[0] < 0x12631a5cf5d3ed then 1 else 0
    requires b1 == if x[1] < b0 + 0xf9dea2f79cd658 then 1 else 0
    requires b2 == if x[2] < b1 + 0x14de then 1 else 0
    requires b3 == if x[3] < b2 then 1 else 0
    requires b4 == if x[4] < b3 + 0x10000000 then 1 else 0
    requires t[0] == x[0] - 0x12631a5cf5d3ed + 0x100_0000_0000_0000 * b0
    requires t[1] == x[1] - (b0 + 0xf9dea2f79cd658) + 0x100_0000_0000_0000 * b1
    requires t[2] == x[2] - (b1 + 0x14de) + 0x100_0000_0000_0000 * b2
    requires t[3] == x[3] - b2 + 0x100_0000_0000_0000 * b3
    requires b4 == 0 ==> t[4] == x[4] - (b3 + 0x10000000)
    ensures b4 == 1 <==> Horner(x[0], x[1], x[2], x[3], x[4]) < ORDER
    ensures b4 == 0 ==> Horner(t[0], t[1], t[2], t[3], t[4]) == Horner(x[0], x[1], x[2], x[3], x[4]) - ORDER
  {
  }

  /** The difference with the order, limb after limb; the borrow tells whether the order was larger. */
  method SubtractOrder(x: seq<u64>) returns (t: seq<u64>, b: nat)
    requires Normal(x)
    ensures b <= 1 && (b == 1 <==> Val(x) < ORDER) && |t| == 5
    ensures b == 0 ==> Normal(t) && Val(t) == Val(x) - ORDER
  {
    hide *;
    NormalVal(x);
    var pb := 0x12631a5cf5d3ed;
    var b0 := Lt(x[0], pb);
    var t0 := Diff(x[0], pb, b0, 0x100_0000_0000_0000);
    LimbDifference(x[0], pb, b0, 0x100_0000_0000_0000);
    pb := b0 + 0xf9dea2f79cd658;
    var b1 := Lt(x[1], pb);
    var t1 := Diff(x[1], pb, b1, 0x100_0000_0000_0000);
    LimbDifference(x[1], pb, b1, 0x100_0000_0000_0000);
    pb := b1 + 0x14de;
    var b2 := Lt(x[2], pb);
    var t2 := Diff(x[2], pb, b2, 0x100_0000_0000_0000);
    LimbDifference(x[2], pb, b2, 0x100_0000_0000_0000);
    pb := b2;
    var b3 := Lt(x[3], pb);
    var t3 := Diff(x[3], pb, b3, 0x100_0000_0000_0000);
    LimbDifference(x[3], pb, b3, 0x100_0000_0000_0000);
    pb := b3 + 0x10000000;
    b := Lt(x[4], pb);
    var t4 := Diff(x[4], pb, b, 0x1_0000_0000);
    LimbDifference(x[4], pb, b, 0x1_0000_0000);
    t := [t0, t1, t2, t3, t4];
    OrderDifference(x, t, b0, b1, b2, b3, b);
    if b == 0 {
      NormalBy(t);
      NormalVal(t);
    }
  }

  /** `reduce256_modm`: subtracts the order once, if it fits. */
  method Reduce256(r: array<u64>)
    requires r.Length == 5 && Normal(r[..])
    modifies r
    ensures Normal(r[..])
    ensures Val(r[..]) == old(if Val(r[..]) < ORDER then Val(r[..]) else Val(r[..]) - ORDER)
  {
    hide *;
    ghost var x := r[..];
    var t, b := SubtractOrder(r[..]);
    r[0] := Masked(r[0], t[0], b);
    r[1] := Masked(r[1], t[1], b);
    r[2] := Masked(r[2], t[2], b);
    r[3] := Masked(r[3], t[3], b);
    r[4] := Masked(r[4], t[4], b);
    assert r[..] == [r[0], r[1], r[2], r[3], r[4]];
    assert r[..] == if b == 1 then x else t;
  }

  method Masked(x: u64, t: u64, b: nat) returns (y: u64)
    requires b <= 1
    ensures y == if b == 1 then x else t
  {
    SelectIs(x, t, b);
    y := Select(x, t, b);
  }

  /** Each column split into a limb and what goes on to the next one. */
  lemma {:induction false} SumColumns(x: seq<int>, y: seq<int>, r: seq<int>, c0: int, c1: int, c2: int, c3: int)
    requires |x| == |y| == |r| == 5
    requires x[0] + y[0] == 0x100_0000_0000_0000 * c0 + r[0] && c0 + x[1] + y[1] == 0x100_0000_0000_0000 * c1 + r[1]
    requires c1 + x[2] + y[2] == 0x100_0000_0000_0000 * c2 + r[2]
    requires c2 + x[3] + y[3] == 0x100_0000_0000_0000 * c3 + r[3] && c3 + x[4] + y[4] == r[4]
    ensures Horner(r[0], r[1], r[2], r[3], r[4])
         == Horner(x[0], x[1], x[2], x[3], x[4]) + Horner(y[0], y[1], y[2], y[3], y[4])
  {
  }

  lemma TopOfReduced(x0: int, x1: int, x2: int, x3: int, x4: int)
    requires x0 >= 0 && x1 >= 0 && x2 >= 0 && x3 >= 0 && Horner(x0, x1, x2, x3, x4) < 2 * ORDER
    ensures x4 < 0x100_0000_0000_0000
  {
  }

  lemma OnceEnough(n: nat)
    requires n < 2 * ORDER
    ensures ORDER > 0 && n % ORDER == if n < ORDER then n else n - ORDER
  {
  }

  /** `c & 0xffffffffffffff` and `c >> 56` */
  method Split56(c: u64) returns (low: u64, high: u64)
    ensures c == 0x100_0000_0000_0000 * high + low && low < 0x100_0000_0000_0000
  {
    low, high := c % 0x100_0000_0000_0000, c / 0x100_0000_0000_0000;
  }

  /** The sum in place, before the reduction. */
  method AddLimbs(r: array<u64>, x: array<u64>, y: array<u64>)
    requires r.Length == 5 && x.Length == 5 && y.Length == 5 && Normal(x[..]) && Normal(y[..])
    requires Val(x[..]) + Val(y[..]) < 2 * ORDER
    modifies r
    ensures Normal(r[..]) && Val(r[..]) == old(Val(x[..]) + Val(y[..])) >= 0
  {
    hide *;
    ghost var u: seq<int>, v: seq<int> := x[..], y[..];
    NormalVal(u);
    NormalVal(v);
    var c0, c1, c2, c3, d;
    d, c0 := Split56(x[0] + y[0]);
    r[0] := d;
    d, c1 := Split56(c0 + x[1] + y[1]);
    r[1] := d;
    d, c2 := Split56(c1 + x[2] + y[2]);
    r[2] := d;
    d, c3 := Split56(c2 + x[3] + y[3]);
    r[3] := d;
    r[4] := c3 + x[4] + y[4];
    SumColumns(u, v, r[..], c0, c1, c2, c3);
    TopOfReduced(r[0], r[1], r[2], r[3], r[4]);
    NormalBy(r[..]);
    NormalVal(r[..]);
    ValBounds(r[..]);
  }

  /** `add256_modm`: the destination may be one of the operands. */
  method Add256(r: array<u64>, x: array<u64>, y: array<u64>)
    requires r.Length == 5 && x.Length == 5 && y.Length == 5 && Normal(x[..]) && Normal(y[..])
    requires Val(x[..]) + Val(y[..]) < 2 * ORDER
    modifies r
    ensures Normal(r[..]) && Val(r[..]) == old(Val(x[..]) + Val(y[..])) % ORDER
  {
    hide *;
    AddLimbs(r, x, y);
    OnceEnough(Val(r[..]));
    Reduce256(r);
  }
}
