/** `ge25519_multi_scalarmult_vartime`: many scalar multiplications by repeated subtraction of the two largest. */
module BosCoster {
  import opened Options
  import opened Groups
  import opened Limbs
  import opened BatchHeap
  import opened Binary
  import opened Words
  import opened Popcount

  // ---------- sums ----------

  function Sum<G>(g: Group<G>, t: seq<G>): G {
    if t == [] then g.zero else g.add(Sum(g, t[..|t| - 1]), t[|t| - 1])
  }

  lemma {:induction false} SumSnoc<G>(g: Group<G>, t: seq<G>, x: G)
    ensures Sum(g, t + [x]) == g.add(Sum(g, t), x)
  {
    assert (t + [x])[..|t|] == t;
  }

  /** Replacing one term changes the sum by the difference. */
  lemma {:induction false} SumUpdate<G(!new)>(g: Group<G>, t: seq<G>, i: nat, v: G)
    requires Abelian(g) && i < |t|
    ensures g.add(Sum(g, t[i := v]), t[i]) == g.add(Sum(g, t), v)
  {
    var p, x := t[..|t| - 1], t[|t| - 1];
    SumSnoc(g, p, x);
    assert t == p + [x];
    hide *;
    if i == |t| - 1 {
      assert t[i := v] == p + [v];
      SumSnoc(g, p, v);
      Assoc(g, Sum(g, p), v, x);
      Assoc(g, Sum(g, p), x, v);
      Assoc(g, v, x, x);
    } else {
      SumUpdate(g, p, i, v);
      assert t[i := v] == p[i := v] + [x];
      SumSnoc(g, p[i := v], x);
      Assoc(g, Sum(g, p[i := v]), x, t[i]);
      Assoc(g, x, t[i], t[i]);
      Assoc(g, Sum(g, p[i := v]), t[i], x);
      Assoc(g, Sum(g, p), v, x);
      Assoc(g, v, x, x);
      Assoc(g, Sum(g, p), x, v);
    }
  }

  /** Two terms may be exchanged for two others with the same sum. */
  lemma {:induction false} SumUpdate2<G(!new)>(g: Group<G>, t: seq<G>, i: nat, j: nat, v: G, w: G)
    requires Abelian(g) && i < |t| && j < |t| && i != j && g.add(v, w) == g.add(t[i], t[j])
    ensures Sum(g, t[i := v][j := w]) == Sum(g, t)
  {
    hide *;
    var t1 := t[i := v];
    var s0, s1, s2 := Sum(g, t), Sum(g, t1), Sum(g, t1[j := w]);
    SumUpdate(g, t, i, v);
    SumUpdate(g, t1, j, w);
    // s1 + t[i] == s0 + v and s2 + t[j] == s1 + w
    Assoc(g, s2, t[j], t[i]);
    Assoc(g, s1, w, t[i]);
    Assoc(g, w, t[i], t[i]);
    Assoc(g, s1, t[i], w);
    Assoc(g, s0, v, w);
    Assoc(g, t[j], t[i], t[i]);
    Cancel(g, s2, s0, g.add(t[j], t[i]));
  }

  lemma {:induction false} SumZeros<G(!new)>(g: Group<G>, t: seq<G>, i: nat)
    requires Abelian(g) && i < |t| && forall k :: 0 <= k < |t| && k != i ==> t[k] == g.zero
    ensures Sum(g, t) == t[i]
  {
    var p, x := t[..|t| - 1], t[|t| - 1];
    if i == |t| - 1 {
      AllZeros(g, p);
    } else {
      SumZeros(g, p, i);
    }
  }

  lemma {:induction false} AllZeros<G(!new)>(g: Group<G>, t: seq<G>)
    requires Abelian(g) && forall k :: 0 <= k < |t| ==> t[k] == g.zero
    ensures Sum(g, t) == g.zero
  {
    if t != [] {
      AllZeros(g, t[..|t| - 1]);
    }
  }

  /** The products that are summed, for the first `n` pairs. */
  function Terms<G>(g: Group<G>, sc: seq<Scalar>, pts: seq<G>, n: nat): (t: seq<G>)
    requires n <= |sc| && n <= |pts|
    ensures |t| == n
  {
    seq(n, i requires 0 <= i < n => ValNonnegative(sc[i]); Times(g, Val(sc[i]), pts[i]))
  }

  lemma ValNonnegative(s: Scalar)
    ensures Val(s) >= 0
  {
    ValBounds(s);
  }

  /** `[a]p + [b]q == [a - b]p + [b](q + p)` */
  lemma Transfer<G(!new)>(g: Group<G>, a: nat, b: nat, p: G, q: G)
    requires Abelian(g) && b <= a
    ensures g.add(Times(g, a - b, p), Times(g, b, g.add(q, p))) == g.add(Times(g, a, p), Times(g, b, q))
  {
    hide *;
    var x, y, z := Times(g, a - b, p), Times(g, b, q), Times(g, b, p);
    TimesPlus(g, b, q, p);
    TimesAdd(g, a - b, b, p);
    Assoc(g, x, z, y);
    Assoc(g, z, y, y);
    Assoc(g, y, z, z);
  }

  /** The step of the algorithm keeps the sum over all members. */
  lemma {:induction false} StepKeepsSum<G(!new)>(g: Group<G>, sc: seq<Scalar>, pts: seq<G>, n: nat, a: nat, b: nat,
                                               d: Scalar)
    requires Abelian(g) && n <= |sc| && n <= |pts| && a < n && b < n && a != b
    requires Val(sc[b]) <= Val(sc[a]) && Val(d) == Val(sc[a]) - Val(sc[b])
    ensures Sum(g, Terms(g, sc[a := d], pts[b := g.add(pts[b], pts[a])], n)) == Sum(g, Terms(g, sc, pts, n))
  {
    hide Val, Times, Sum;
    ValNonnegative(sc[a]); ValNonnegative(sc[b]); ValNonnegative(d);
    var t := Terms(g, sc, pts, n);
    var v, w := Times(g, Val(d), pts[a]), Times(g, Val(sc[b]), g.add(pts[b], pts[a]));
    Transfer(g, Val(sc[a]), Val(sc[b]), pts[a], pts[b]);
    SumUpdate2(g, t, a, b, v, w);
    assert Terms(g, sc[a := d], pts[b := g.add(pts[b], pts[a])], n) == t[a := v][b := w];
  }

  // ---------- limbs ----------

  const P128 := 0x1_0000_0000_0000_0000_0000_0000_0000_0000

  /** `isatmost128bits256_modm_batch` */
  predicate AtMost128(s: Scalar) {
    s[4] == 0 && s[3] == 0 && s[2] / 0x1_0000 == 0
  }

  lemma AtMost128Is(s: Scalar)
    ensures AtMost128(s) <==> Val(s) < P128
  {
    hide Val;
    Val5(s);
  }

  predicate IsZero(s: Scalar) {
    forall i :: 0 <= i < 5 ==> s[i] == 0
  }

  predicate IsOne(s: Scalar) {
    s[0] == 1 && forall i :: 1 <= i < 5 ==> s[i] == 0
  }

  lemma SmallIs(s: Scalar)
    ensures IsZero(s) <==> Val(s) == 0
    ensures IsOne(s) <==> Val(s) == 1
  {
    hide Val;
    Val5(s);
  }

  /** A scalar of at least 2^127 in three limbs uses the third. */
  lemma ThirdLimb(s: Scalar)
    requires Within(s, 2) && 2 * Val(s) >= P128
    ensures s[2] != 0
  {
    hide Val;
    Val5(s);
  }

  /** Scalars below 2^128 fit three limbs, others need them. */
  lemma ThreeLimbs(s: Scalar, k: nat)
    ensures Val(s) < P128 ==> Within(s, 2)
    ensures Val(s) >= P128 && Within(s, k) ==> k >= 2
  {
    hide Val;
    Val5(s);
  }

  /** When the largest scalar has no limb `k`, no scalar has. */
  lemma {:induction false} LimbExhausted(a: Scalar, b: Scalar, k: nat)
    requires k < 5 && Within(a, k) && Within(b, k) && Val(b) <= Val(a) && a[k] == 0
    ensures Within(b, k - 1)
  {
    hide Val, RPow;
    ValWindow(a, k);
    ValWindow(b, k);
    ValTake(a, k);
    ValTake(b, k);
    ValBounds(a[..k]);
    ValBounds(b[..k]);
    TopIsZero(Val(a[..k]), Val(b[..k]), RPow(k), b[k]);
  }

  lemma TopIsZero(va: int, vb: int, p: int, x: int)
    requires 0 <= va < p && 0 <= vb && 0 <= x && vb + p * x <= va
    ensures x == 0
  {
  }

  // ---------- the measure ----------

  const Integers: Group<int> := Group(0, (a: int, b: int) => a + b, (a: int) => -a)

  lemma IntegersAbelian()
    ensures Abelian(Integers)
  {
  }

  function NatVal(s: Scalar): (v: nat)
    ensures v == Val(s)
  {
    ValNonnegative(s);
    Val(s)
  }

  function Vals(sc: seq<Scalar>, n: nat): (t: seq<nat>)
    requires n <= |sc|
    ensures |t| == n
  {
    seq(n, i requires 0 <= i < n => NatVal(sc[i]))
  }

  function Total(sc: seq<Scalar>, n: nat): int
    requires n <= |sc|
  {
    Sum(Integers, Vals(sc, n))
  }

  lemma {:induction false} SumNonnegative(t: seq<int>)
    requires forall i :: 0 <= i < |t| ==> t[i] >= 0
    ensures Sum(Integers, t) >= 0
  {
    if t != [] {
      SumNonnegative(t[..|t| - 1]);
    }
  }

  lemma {:induction false} TotalStep(sc: seq<Scalar>, n: nat, a: nat, d: Scalar)
    requires n <= |sc| && a < n
    ensures Total(sc[a := d], n) == Total(sc, n) - Val(sc[a]) + Val(d)
    ensures Total(sc, n) >= 0
  {
    hide Val, Sum;
    IntegersAbelian();
    ValNonnegative(d);
    SumUpdate(Integers, Vals(sc, n), a, Val(d));
    assert Vals(sc[a := d], n) == Vals(sc, n)[a := Val(d)];
    forall i | 0 <= i < n ensures Val(sc[i]) >= 0 { ValNonnegative(sc[i]); }
    SumNonnegative(Vals(sc, n));
  }

  // ---------- the remaining scalar ----------

  function BitLength(n: nat): nat {
    if n == 0 then 0 else 1 + BitLength(n / 2)
  }

  /** The part of a scalar the exponentiation looks at: four limbs. */
  function LowLimbs(s: Scalar): (r: nat) {
    ValBounds(s[..4]);
    Val(s[..4])
  }

  /**
   * What the code multiplies by: the scalar itself for 0 and 1. Otherwise it starts from the point and
   * folds the leading bit of the four low limbs in again, so that twice the leading bit is added.
   * `None` stands for a scan that finds no bit in the four limbs and leaves the array.
   */
  function FinalFactor(s: Scalar): Option<nat> {
    ValBounds(s);
    if Val(s) <= 1 then Some(Val(s))
    else if LowLimbs(s) == 0 then None
    else Some(Pow2(BitLength(LowLimbs(s))) + LowLimbs(s))
  }

  lemma {:induction false} BitLengthIs(x: nat, p: nat)
    requires Pow2(p) <= x < Pow2(p + 1)
    ensures BitLength(x) == p + 1
  {
    if p > 0 {
      BitLengthIs(x / 2, p - 1);
    }
  }

  /** The limbs from `l` to 3, as one number. */
  function From(s: Scalar, l: nat): (r: nat)
    requires l <= 4
  {
    ValBounds(s[l..4]);
    Val(s[l..4])
  }

  lemma {:induction false} FromStep(s: Scalar, l: nat)
    requires l < 4
    ensures From(s, l) == s[l] + RADIX * From(s, l + 1) && From(s, 4) == 0
  {
    assert s[l..4][1..] == s[l + 1..4];
  }

  /** Reading one more bit of limb `l` doubles and adds. */
  lemma {:induction false} ReadBit(s: Scalar, l: nat, b: nat)
    requires l < 4 && b < 56
    ensures Shr(From(s, l), b) == 2 * Shr(From(s, l), b + 1) + Shr(s[l], b) % 2
  {
    hide From, Shr, Pow2;
    FromStep(s, l);
    RadixIsPow2();
    FieldBits(s[l], From(s, l + 1), 56, b);
    ShrStep(From(s, l), b);
  }

  lemma {:induction false} NextLimb(s: Scalar, l: nat)
    requires 0 < l < 4
    ensures Shr(From(s, l - 1), 56) == From(s, l) == Shr(From(s, l), 0)
  {
    hide From, Shr, Pow2;
    FromStep(s, l - 1);
    RadixIsPow2();
    FieldBits(s[l - 1], From(s, l), 56, 0);
    BitsZero(From(s, l));
  }

  /** The leading bit: limb `l`, bit `b`. */
  ghost predicate Leading(s: Scalar, l: nat, b: nat) {
    && l < 4 && b < 56 && (forall j :: l < j < 4 ==> s[j] == 0)
    && Pow2(b) <= s[l] < Pow2(b + 1)
  }

  lemma {:induction false} LeadingIs(s: Scalar, l: nat, b: nat)
    requires Leading(s, l, b)
    ensures BitLength(LowLimbs(s)) == 56 * l + b + 1
    ensures Shr(From(s, l), b + 1) == 0
  {
    hide Val, RPow, Pow2, Shr;
    var x := s[..4];
    ValWithin(x, l, 4);
    assert x[..4] == x && x[..l + 1] == s[..l + 1] && x[..l] == s[..l];
    ValTake(s, l);
    ValBounds(s[..l]);
    RPowIs(l);
    Pow2Step(b);
    LeadingBounds(Val(s[..l]), s[l], Pow2(56 * l), Pow2(b));
    Pow2Add(56 * l, b);
    Pow2Step(56 * l + b);
    Pow2Step(b);
    BitLengthIs(LowLimbs(s), 56 * l + b);
    FromIsLimb(s, l);
    ShrZero(From(s, l), b + 1);
  }

  lemma LeadingBounds(v: nat, x: nat, p: nat, q: nat)
    requires v < p && q <= x < 2 * q
    ensures p * q <= v + p * x < 2 * (p * q)
  {
    MulLe(q, x, p);
    MulLe(x + 1, 2 * q, p);
    assert (x + 1) * p == x * p + p;
    MulDouble(q, p);
  }

  lemma {:induction false} FromIsLimb(s: Scalar, l: nat)
    requires l < 4 && forall j :: l < j < 4 ==> s[j] == 0
    ensures From(s, l) == s[l]
    decreases 4 - l
  {
    hide From;
    FromStep(s, l);
    if l + 1 < 4 {
      FromIsLimb(s, l + 1);
    }
  }

  /** The factor collected when the bits above bit `b` of limb `l` are done, `n` bits in all. */
  function Collected(s: Scalar, n: nat, l: nat, b: nat): nat
    requires l < 4 && 56 * l + b + 1 <= n
  {
    Pow2(n - (56 * l + b + 1)) + Shr(From(s, l), b + 1)
  }

  lemma {:induction false} CollectStep(s: Scalar, n: nat, l: nat, b: nat)
    requires l < 4 && b < 56 && 56 * l + b + 1 <= n
    ensures var c := 2 * Collected(s, n, l, b) + Shr(s[l], b) % 2;
      if b > 0 then c == Collected(s, n, l, b - 1)
      else if l > 0 then c == Collected(s, n, l - 1, 55)
      else c == Pow2(n) + LowLimbs(s)
  {
    hide From, Shr, Pow2;
    ReadBit(s, l, b);
    Pow2Step(n - (56 * l + b + 1));
    if b == 0 {
      BitsZero(From(s, l));
      if l > 0 {
        NextLimb(s, l);
      } else {
        FromAll(s);
      }
    }
  }

  lemma FromAll(s: Scalar)
    ensures From(s, 0) == LowLimbs(s)
  {
    assert s[0..4] == s[..4];
  }

  /** Finds the leading bit of a nonzero limb. */
  method FirstBit(x: Limb) returns (flag: nat, ghost b: nat)
    requires x != 0
    ensures b < 56 && flag == Pow2(b) && Pow2(b) <= x < Pow2(b + 1)
  {
    hide *;
    RadixIsPow2();
    flag, b := 0x80_0000_0000_0000, 55;
    TestBit(x, b);
    BitIsTop(x, b);
    while And(x, flag) == 0
      invariant b < 56 && flag == Pow2(b) && x < Pow2(b + 1)
      invariant And(x, flag) == 0 <==> x < Pow2(b)
      decreases b
    {
      if b == 0 {
        Pow2Step(0);
        assert false;
      }
      Pow2Step(b - 1);
      flag, b := flag / 2, b - 1;
      TestBit(x, b);
      BitIsTop(x, b);
    }
  }

  lemma {:induction false} BitIsTop(x: nat, b: nat)
    requires x < Pow2(b + 1)
    ensures And(x, Pow2(b)) == 0 <==> x < Pow2(b)
  {
    hide *;
    TestBit(x, b);
    Pow2Step(b);
    ShrIsDiv(x, b);
    TopQuotient(x, Shr(x, b), Pow2(b));
  }

  lemma TopQuotient(x: nat, q: nat, p: nat)
    requires q * p <= x < (q + 1) * p && x < 2 * p && p > 0
    ensures q <= 1 && (q == 0 <==> x < p) && (p * (q % 2) == 0 <==> q == 0)
  {
    if q >= 2 {
      MulLe(2, q, p);
    }
  }

  /** `ge25519_multi_scalarmult_vartime_final` */
  method FinalMul<G(!new)>(g: Group<G>, point: G, scalar: Scalar) returns (r: Option<G>)
    requires Abelian(g)
    ensures r.Some? <==> FinalFactor(scalar).Some?
    ensures r.Some? ==> r.value == Times(g, FinalFactor(scalar).value, point)
  {
    hide Val, Pow2, Shr, And, From, Times, LowLimbs, BitLength, Collected, Leading;
    SmallIs(scalar);
    assert Times(g, 0, point) == g.zero && Times(g, 1, point) == point by { TimesSmall(g, point); }
    if IsOne(scalar) {
      return Some(point);
    }
    if IsZero(scalar) {
      return Some(g.zero);
    }
    ValNonnegative(scalar);
    var limb := 3;
    while limb >= 0 && scalar[limb] == 0
      invariant -1 <= limb <= 3 && forall j :: limb < j < 4 ==> scalar[j] == 0
    {
      limb := limb - 1;
    }
    if limb < 0 {
      NoBits(scalar);
      return None;
    }
    var flag, b := FirstBit(scalar[limb]);
    ghost var n := BitLength(LowLimbs(scalar));
    LeadingHere(scalar, limb, b);
    var acc := point;
    while true
      invariant 0 <= limb < 4 && b < 56 && flag == Pow2(b) && 56 * limb + b + 1 <= n
      invariant acc == Times(g, Collected(scalar, n, limb, b), point)
      decreases limb, b
    {
      ghost var c := Collected(scalar, n, limb, b);
      CollectStep(scalar, n, limb, b);
      AndBit(scalar[limb], b);
      acc := g.add(acc, acc);
      TimesAdd(g, c, c, point);
      if And(scalar[limb], flag) != 0 {
        TimesAdd(g, 2 * c, 1, point);
        acc := g.add(acc, point);
      }
      FlagHalves(b);
      flag := flag / 2;
      if flag == 0 {
        if limb == 0 {
          break;
        }
        limb := limb - 1;
        flag, b := 0x80_0000_0000_0000, 55;
        RadixIsPow2();
      } else {
        b := b - 1;
      }
    }
    r := Some(acc);
  }

  lemma FlagHalves(b: nat)
    ensures b == 0 ==> Pow2(b) / 2 == 0
    ensures b > 0 ==> Pow2(b) / 2 == Pow2(b - 1) > 0
  {
  }

  lemma TimesSmall<G(!new)>(g: Group<G>, p: G)
    requires Abelian(g)
    ensures Times(g, 0, p) == g.zero && Times(g, 1, p) == p
  {
  }

  lemma {:induction false} NoBits(s: Scalar)
    requires forall j :: 0 <= j < 4 ==> s[j] == 0
    ensures LowLimbs(s) == 0
  {
    hide Val, From;
    FromIsLimb(s, 0);
    FromAll(s);
  }

  lemma {:induction false} LeadingHere(s: Scalar, l: nat, b: nat)
    requires l < 4 && b < 56 && (forall j :: l < j < 4 ==> s[j] == 0) && Pow2(b) <= s[l] < Pow2(b + 1)
    ensures BitLength(LowLimbs(s)) == 56 * l + b + 1 && LowLimbs(s) != 0
    ensures Collected(s, BitLength(LowLimbs(s)), l, b) == 1
  {
    assert BitLength(0) == 0;
    hide LowLimbs, BitLength, From, Shr;
    LeadingIs(s, l, b);
  }
}
