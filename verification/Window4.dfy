/** `contract256_window4_modm` and `ge25519_scalarmult_base_niels`: signed digits in base 16. */
module Window4 {
  import opened Binary
  import opened Words
  import opened Arith
  import opened Digits
  import opened Limbs
  import opened Expansion
  import opened Groups

  // ---------- the recoding ----------

  lemma {:induction false} Nonnegative(b: nat, q: seq<int>)
    requires forall i :: 0 <= i < |q| ==> q[i] >= 0
    ensures Weigh(b, q) >= 0
  {
    if q != [] {
      Nonnegative(b, q[1..]);
    }
  }

  lemma {:induction false} TopDigit(q: seq<int>)
    requires |q| == 64 && (forall i :: 0 <= i < 64 ==> 0 <= q[i] < 16) && Weigh(16, q) < Pow2(255)
    ensures q[63] <= 7
  {
    hide *;
    WeighTake(16, q, 63);
    assert q[..64] == q;
    Nonnegative(16, q[..63]);
    PowerOfSixteen(63);
    Pow2Step(252); Pow2Step(253); Pow2Step(254);
    if q[63] > 7 {
      MulGap(Pow2(252), q[63], 7);
    }
  }

  /** Moving a carry from one digit to the next keeps the value. */
  lemma {:induction false} CarryStep(q: seq<int>, i: nat, carry: int, hi: int, lo: int, c: int)
    requires i + 1 < |q| && q[i] + carry == 16 * hi + lo
    ensures Weigh(16, q[i := lo - 16 * c][i + 1 := q[i + 1] + hi]) + Power(16, i + 1) * c
         == Weigh(16, q) + Power(16, i) * carry
  {
    hide *;
    var q' := q[i := lo - 16 * c];
    WeighUpdate(16, q, i, lo - 16 * c);
    WeighUpdate(16, q', i + 1, q[i + 1] + hi);
    PowerStep(16, i);
    Moved(Power(16, i), q[i], carry, hi, lo, c);
  }

  lemma Moved(p: int, d: int, carry: int, hi: int, lo: int, c: int)
    requires d + carry == 16 * hi + lo
    ensures p * (lo - 16 * c - d) + (16 * p) * hi + (16 * p) * c == p * carry
  {
    var y := lo - 16 * c - d;
    assert carry == y + 16 * hi + 16 * c;
    assert p * carry == p * y + p * (16 * hi) + p * (16 * c);
    assert p * (16 * hi) == (16 * p) * hi && p * (16 * c) == (16 * p) * c;
  }

  /** One digit of the signed form: what exceeds 7 goes to the next digit, some of it as the new carry. */
  method Settle(r: array<Schar>, i: nat, carry0: int) returns (carry: int)
    requires r.Length == 64 && i < 63 && 0 <= carry0 <= 1 && 0 <= r[i] && carry0 + r[i] <= 16 && 0 <= r[i + 1] <= 16
    modifies r
    ensures 0 <= carry <= 1 && -8 <= r[i] < 8 && old(r[i + 1]) <= r[i + 1] && carry + r[i + 1] <= 1 + old(r[i + 1])
    ensures forall k :: 0 <= k < 64 && k != i && k != i + 1 ==> r[k] == old(r[k])
    ensures Weigh(16, r[..]) + Power(16, i + 1) * carry == old(Weigh(16, r[..])) + Power(16, i) * carry0
  {
    hide *;
    ghost var p: seq<int> := r[..];
    r[i] := r[i] + carry0;
    ghost var hi, lo := r[i] / 16, r[i] % 16;
    r[i + 1] := r[i + 1] + r[i] / 16;
    r[i] := r[i] % 16;
    carry := r[i] / 8;
    r[i] := r[i] - carry * 16;
    CarryStep(p, i, carry0, hi, lo, carry);
    assert r[..] == p[i := lo - 16 * carry][i + 1 := p[i + 1] + hi];
  }

  /**
   * `contract256_window4_modm`: 64 digits between -8 and 8 with the value of the scalar.
   */
  method Window4(r: array<Schar>, s: Scalar)
    requires r.Length == 64 && Val(s) < Pow2(255)
    modifies r
    ensures Weigh(16, r[..]) == Val(s)
    ensures forall i :: 0 <= i < 64 ==> -8 <= r[i] <= 8
  {
    hide *;
    Expand(r, s, 16, 14, 8);
    ghost var q: seq<int> := r[..];
    TopDigit(q);
    PowerStep(16, 0);
    var carry: int := 0;
    for i := 0 to 63
      invariant 0 <= carry <= 1 && 0 <= r[i] && carry + r[i] <= q[i] + 1
      invariant forall k :: i < k < 64 ==> r[k] == q[k]
      invariant forall k :: 0 <= k < i ==> -8 <= r[k] <= 8
      invariant Weigh(16, r[..]) + Power(16, i) * carry == Val(s)
    {
      ghost var p := r[..];
      carry := Settle(r, i, carry);
      assert forall k :: 0 <= k < 64 && k != i && k != i + 1 ==> r[k] == p[k];
    }
    ghost var p := r[..];
    WeighUpdate(16, p, 63, r[63] + carry);
    r[63] := r[63] + carry;
    assert r[..] == p[63 := p[63] + carry];
  }

  // ---------- the table ----------

  const TOP: nat := 0xffff_ffff

  lemma {:induction false} XorOnes(a: nat, k: nat)
    requires a < Pow2(k)
    ensures Xor(a, Pow2(k) - 1, k) == Pow2(k) - 1 - a
  {
    hide *;
    XorStep(a, Pow2(k) - 1, 0);
    Pow2Step(0);
    if k > 0 {
      var p := Pow2(k - 1);
      Pow2Step(k - 1);
      XorOnes(a / 2, k - 1);
      XorStep(a, 2 * p - 1, k - 1);
      OnesBit(a / 2, a % 2, p);
    }
  }

  lemma OnesBit(h: nat, l: nat, p: nat)
    requires l < 2 && p > 0
    ensures (2 * p - 1) / 2 == p - 1
    ensures (2 * h + l + (2 * p - 1)) % 2 + 2 * (p - 1 - h) == 2 * p - 1 - (2 * h + l)
  {
    var n := h + p - 1;
    assert 2 * h + l + (2 * p - 1) == 2 * n + (l + 1);
  }

  lemma {:induction false} XorEqual(a: nat, b: nat, k: nat)
    requires a < Pow2(k) && b < Pow2(k)
    ensures Xor(a, b, k) == 0 <==> a == b
  {
    hide *;
    XorStep(a, b, 0);
    Pow2Step(0);
    if k > 0 {
      Pow2Step(k - 1);
      XorEqual(a / 2, b / 2, k - 1);
      XorStep(a, b, k - 1);
    }
  }

  /** Values of `j` bits differ in `j` bits. */
  lemma {:induction false} XorSmall(a: nat, b: nat, j: nat, k: nat)
    requires a < Pow2(j) && b < Pow2(j) && j <= k
    ensures Xor(a, b, k) < Pow2(j)
  {
    hide *;
    Pow2Step(0);
    XorStep(a, b, 0);
    if j == 0 && k > 0 {
      XorStep(a, b, k - 1);
      XorSmall(0, 0, 0, k - 1);
    } else if j > 0 {
      Pow2Step(j - 1);
      XorStep(a, b, k - 1);
      XorSmall(a / 2, b / 2, j - 1, k - 1);
    }
  }

  /** `ge25519_windowb_equal` on 32-bit words. */
  function Equal(b: nat, c: nat): nat {
    ((Xor(b, c, 32) - 1) % 0x1_0000_0000) / 0x8000_0000
  }

  lemma {:induction false} EqualIs(b: nat, c: nat)
    requires b < 16 && c < 16
    ensures Equal(b, c) == if b == c then 1 else 0
  {
    hide Pow2, Xor;
    assert Pow2(4) == 16 by { Pow2Step(0); Pow2Step(1); Pow2Step(2); Pow2Step(3); }
    Pow2Monotone(4, 32);
    XorEqual(b, c, 32);
    XorSmall(b, c, 4, 32);
  }

  /** The sign bit of a `signed char`, and the mask made of it. */
  function SignBit(b: Schar): nat {
    (b % 256) / 128
  }

  function Mask(sign: nat): nat {
    TOP - (sign - 1) % 0x1_0000_0000
  }

  function Magnitude(b: Schar): nat {
    Xor((Mask(SignBit(b)) + b) % 0x1_0000_0000, Mask(SignBit(b)), 32)
  }

  lemma {:induction false} MagnitudeIs(b: Schar)
    ensures SignBit(b) == if b < 0 then 1 else 0
    ensures Magnitude(b) == if b < 0 then -(b as int) else b
  {
    hide Pow2, Xor;
    Pow2Values();
    if b < 0 {
      assert Mask(1) == TOP;
      XorOnes(TOP + b, 32);
    } else {
      assert Mask(0) == 0;
      XorZero(b, 32);
    }
  }

  /** Entry `8 * pos + i` of the table is `(i + 1) * 256^pos` times the base point. */
  ghost predicate BaseTable<G>(g: Group<G>, table: seq<G>, base: G) {
    |table| == 256 && forall k :: 0 <= k < 256 ==> table[k] == Entry(g, base, k / 8, k % 8 + 1)
  }

  function Entry<G>(g: Group<G>, base: G, pos: nat, n: int): G {
    Mul(g, Power(256, pos) * n, base)
  }

  lemma {:induction false} EntryLaws<G(!new)>(g: Group<G>, base: G, pos: nat, n: int)
    requires Abelian(g)
    ensures Entry(g, base, pos, 0) == g.zero && Entry(g, base, pos, -n) == g.neg(Entry(g, base, pos, n))
  {
    hide Mul, Power, Abelian;
    var p := Power(256, pos);
    assert p * 0 == 0 && p * -n == -(p * n);
    MulStep(g, 0, base);
    MulNeg(g, p * n, base);
  }

  lemma EntryAt<G>(g: Group<G>, table: seq<G>, base: G, pos: nat, i: nat)
    requires BaseTable(g, table, base) && pos < 32 && i < 8
    ensures |table| == 256 && table[pos * 8 + i] == Entry(g, base, pos, i + 1)
  {
    hide Entry;
    var k := pos * 8 + i;
    assert k / 8 == pos && k % 8 == i;
  }

  /**
   * `ge25519_scalarmult_base_choose_niels`: all eight entries are visited, and the one whose number is
   * the digit's magnitude is kept, with the digit's sign.
   */
  method Choose<G(!new)>(g: Group<G>, table: seq<G>, pos: nat, b: Schar, ghost base: G) returns (t: G)
    requires Abelian(g) && BaseTable(g, table, base) && pos < 32 && -8 <= b <= 8
    ensures t == Entry(g, base, pos, b)
  {
    hide *;
    var sign := SignBit(b);
    var u := Magnitude(b);
    MagnitudeIs(b);
    var packed := g.zero;
    EntryLaws(g, base, pos, u);
    for i := 0 to 8
      invariant packed == Entry(g, base, pos, if u <= i then u else 0)
    {
      EntryAt(g, table, base, pos, i);
      EqualIs(u, i + 1);
      if Equal(u, i + 1) == 1 {
        packed := table[pos * 8 + i];
      }
    }
    t := if sign == 1 then g.neg(packed) else packed;
  }

  // ---------- the schedule ----------

  function Evens(q: seq<int>): (t: seq<int>)
    ensures |t| == (|q| + 1) / 2
  {
    if |q| == 0 then [] else [q[0]] + Odds(q[1..])
  }

  function Odds(q: seq<int>): (t: seq<int>)
    ensures |t| == |q| / 2
  {
    if |q| == 0 then [] else Evens(q[1..])
  }

  lemma {:induction false} Interleaved(q: seq<int>)
    ensures Weigh(16, q) == Weigh(256, Evens(q)) + 16 * Weigh(256, Odds(q))
  {
    if q != [] {
      var r := q[1..];
      Interleaved(r);
      WeighStep(256, q[0], Odds(r));
    }
  }

  lemma {:induction false} EvensAt(q: seq<int>, k: nat)
    ensures 2 * k < |q| ==> Evens(q)[k] == q[2 * k]
    ensures 2 * k + 1 < |q| ==> Odds(q)[k] == q[2 * k + 1]
  {
    if 2 * k < |q| {
      if k > 0 {
        EvensAt(q[1..], k - 1);
      }
      if 2 * k + 1 < |q| {
        EvensAt(q[1..], k);
      }
    }
  }

  /** Adds one digit of the base-256 sum. */
  lemma {:induction false} SumStep<G(!new)>(g: Group<G>, base: G, e: seq<int>, k: nat, x: int)
    requires Abelian(g) && k < |e|
    ensures g.add(Mul(g, x + Weigh(256, e[..k]), base), Entry(g, base, k, e[k]))
      == Mul(g, x + Weigh(256, e[..k + 1]), base)
  {
    hide *;
    var w, w', d := Weigh(256, e[..k]), Weigh(256, e[..k + 1]), Power(256, k) * e[k];
    assert w' == w + d by { WeighTake(256, e, k); }
    assert Entry(g, base, k, e[k]) == Mul(g, d, base) by { EntryIs(g, base, k, e[k]); }
    MulAdd(g, x + w, d, base);
  }

  lemma EntryIs<G>(g: Group<G>, base: G, pos: nat, n: int)
    ensures Entry(g, base, pos, n) == Mul(g, Power(256, pos) * n, base)
  {
  }

  lemma {:induction false} Doubled<G(!new)>(g: Group<G>, n: int, p: G)
    requires Abelian(g)
    ensures g.add(Mul(g, n, p), Mul(g, n, p)) == Mul(g, 2 * n, p)
  {
    hide *;
    MulAdd(g, n, n, p);
  }

  lemma EmptyWeigh(b: nat)
    ensures Weigh(b, []) == 0
  {
  }

  /** Every other digit of `q`, from the first or the second on. */
  function Half(q: seq<int>, odd: bool): seq<int> {
    if odd then Odds(q) else Evens(q)
  }

  lemma HalfAt(q: seq<int>, odd: bool, i: nat)
    requires |q| == 64 && i < 64 && i % 2 == (if odd then 1 else 0)
    ensures |Half(q, odd)| == 32 && Half(q, odd)[i / 2] == q[i]
  {
    hide Evens, Odds;
    EvensAt(q, i / 2);
  }

  /** The digits at `from`, `from + 2` and so on are added in. */
  method AddEveryOther<G(!new)>(g: Group<G>, table: seq<G>, b: array<Schar>, from: nat, r0: G, odd: bool,
                                ghost base: G, ghost x: int) returns (r: G)
    requires Abelian(g) && BaseTable(g, table, base) && b.Length == 64 && forall i :: 0 <= i < 64 ==> -8 <= b[i] <= 8
    requires from == (if odd then 3 else 2) && |Half(b[..], odd)| == 32
    requires r0 == Mul(g, x + Weigh(256, Half(b[..], odd)[..1]), base)
    ensures r == Mul(g, x + Weigh(256, Half(b[..], odd)), base)
  {
    hide *;
    ghost var half := Half(b[..], odd);
    r := r0;
    var i := from;
    while i < 64
      invariant from <= i <= from + 62 && (i - from) % 2 == 0
      invariant r == Mul(g, x + Weigh(256, half[..i / 2]), base)
    {
      HalfAt(b[..], odd, i);
      var t := Choose(g, table, i / 2, b[i], base);
      r := g.add(r, t);
      SumStep(g, base, half, i / 2, x);
      i := i + 2;
    }
    assert half[..32] == half;
  }

  lemma {:induction false} Sixteen<G(!new)>(g: Group<G>, n: int, p: G, r: G)
    requires Abelian(g) && r == Mul(g, n, p)
    ensures var r2 := g.add(r, r); var r4 := g.add(r2, r2); var r8 := g.add(r4, r4);
            g.add(r8, r8) == Mul(g, 16 * n, p)
  {
    hide *;
    Doubled(g, n, p);
    Doubled(g, 2 * n, p);
    Doubled(g, 4 * n, p);
    Doubled(g, 8 * n, p);
  }

  lemma HalfIs(q: seq<int>)
    requires |q| == 64
    ensures |Half(q, true)| == 32 && |Half(q, false)| == 32
    ensures Weigh(16, q) == Weigh(256, Half(q, false)) + 16 * Weigh(256, Half(q, true))
  {
    hide Weigh, Evens, Odds;
    Interleaved(q);
  }

  /** `ge25519_scalarmult_base_niels`: the odd digits, times 16, and then the even ones. */
  method ScalarMultBase<G(!new)>(g: Group<G>, table: seq<G>, s: Scalar, ghost base: G) returns (r: G)
    requires Abelian(g) && BaseTable(g, table, base) && Val(s) < Pow2(255)
    ensures r == Mul(g, Val(s), base)
  {
    hide *;
    var b := new Schar[64];
    Window4(b, s);
    ghost var q: seq<int> := b[..];
    HalfIs(q);
    HalfAt(q, true, 1);
    HalfAt(q, false, 0);
    r := Choose(g, table, 0, b[1], base);
    FirstEntry(g, base, Half(q, true));
    r := AddEveryOther(g, table, b, 3, r, true, base, 0);
    ghost var o := Weigh(256, Half(q, true));
    Sixteen(g, o, base, r);
    r := g.add(r, r);
    r := g.add(r, r);
    r := g.add(r, r);
    r := g.add(r, r);
    var t := Choose(g, table, 0, b[0], base);
    r := g.add(r, t);
    EmptyWeigh(256);
    assert Half(q, false)[..0] == [];
    SumStep(g, base, Half(q, false), 0, 16 * o);
    r := AddEveryOther(g, table, b, 2, r, false, base, 16 * o);
  }

  lemma {:induction false} FirstEntry<G(!new)>(g: Group<G>, base: G, e: seq<int>)
    requires Abelian(g) && |e| > 0
    ensures Entry(g, base, 0, e[0]) == Mul(g, 0 + Weigh(256, e[..1]), base)
  {
    hide *;
    EmptyWeigh(256);
    assert e[..0] == [];
    SumStep(g, base, e, 0, 0);
    MulStep(g, 0, base);
    Assoc(g, Entry(g, base, 0, e[0]), base, base);
  }
}
