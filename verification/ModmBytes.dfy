/** `expand256_modm` and `contract256_modm`: scalars from and to little-endian bytes. */
module ModmBytes {
  import opened Binary
  import opened Words
  import opened Arith
  import opened Digests
  import opened Bytes
  import opened Limbs
  import opened Modm
  import opened Barrett

  // ---------- words into limbs ----------

  /** The shifts in use: `s` is the weight shifted out of the lower word, `w` the weight of the upper word. */
  predicate Shift(s: nat, w: nat, v: nat) {
    || (s == 0x100_0000_0000_0000 && w == 0x100 && v == 0x1_0000_0000_0000)
    || (s == 0x1_0000_0000_0000 && w == 0x1_0000 && v == 0x100_0000_0000)
    || (s == 0x100_0000_0000 && w == 0x100_0000 && v == 0x1_0000_0000)
    || (s == 0x1_0000_0000 && w == 0x1_0000_0000 && v == 0x100_0000)
  }

  /** `(a >> k) | (b << (64 - k))` */
  function Funnel(a: nat, b: nat, s: nat, w: nat): nat
    requires s > 0
  {
    Or(a / s, (b * w) % 0x1_0000_0000_0000_0000)
  }

  lemma {:induction false} ShiftedWord(b: nat, w: nat, v: nat)
    requires v > 0 && w * v == 0x1_0000_0000_0000_0000
    ensures (b * w) % 0x1_0000_0000_0000_0000 == w * (b % v) <= 0x1_0000_0000_0000_0000 - w
  {
    var q, e := b / v, b % v;
    assert b == v * q + e;
    assert b * w == (v * q) * w + e * w;
    assert (v * q) * w == (w * v) * q && e * w == w * e;
    MulGap(w, v, e);
    DivUnique(b * w, 0x1_0000_0000_0000_0000, q, w * e);
  }

  /** A word of the `k` bits `c` and the low bits of `b` above them. */
  lemma {:induction false} JoinWord(c: nat, b: nat, w: nat, v: nat, k: nat)
    requires v > 0 && w * v == 0x1_0000_0000_0000_0000 && w == Pow2(k) && c < w
    ensures Or(c, (b * w) % 0x1_0000_0000_0000_0000) == c + w * (b % v) < 0x1_0000_0000_0000_0000
  {
    hide *;
    ShiftedWord(b, w, v);
    OrJoins(c, b % v, k);
  }

  lemma ShiftPower(s: nat, w: nat, v: nat) returns (k: nat)
    requires Shift(s, w, v)
    ensures Pow2(k) == w
  {
    hide Pow2;
    Pow2Values();
    Pow2Add(8, 16);
    k := if w == 0x100 then 8 else if w == 0x1_0000 then 16 else if w == 0x100_0000 then 24 else 32;
  }

  lemma {:induction false} FunnelIs(a: nat, b: nat, s: nat, w: nat, v: nat)
    requires Shift(s, w, v) && a < 0x1_0000_0000_0000_0000
    ensures Funnel(a, b, s, w) == a / s + w * (b % s) && a / s < w
  {
    var k := ShiftPower(s, w, v);
    hide Or, Pow2;
    JoinWord(a / s, b, w, s, k);
  }

  lemma {:induction false} LowerPart(b: nat, v: nat)
    requires v > 0
    ensures b % (256 * v) % v == b % v
  {
    var q, e := b / (256 * v), b % (256 * v);
    assert b == (256 * v) * q + e && (256 * v) * q == v * (256 * q);
    assert e == v * (e / v) + e % v;
    assert v * (256 * q + e / v) == v * (256 * q) + v * (e / v);
    DivUnique(b, v, 256 * q + e / v, e % v);
  }

  lemma {:induction false} MaskLimb(c: nat, e: nat, w: nat, v: nat)
    requires v > 0 && w * v == 0x100_0000_0000_0000 && c < w
    ensures (c + w * e) % 0x100_0000_0000_0000 == c + w * (e % v) < 0x100_0000_0000_0000
  {
    var q, m := e / v, e % v;
    assert e == v * q + m;
    assert w * e == w * (v * q) + w * m;
    assert w * (v * q) == (w * v) * q;
    MulGap(w, v, m);
    DivUnique(c + w * e, 0x100_0000_0000_0000, q, c + w * m);
  }

  /** The 56 bits that start in the lower word. */
  lemma {:induction false} FunnelLimb(a: nat, b: nat, s: nat, w: nat, v: nat)
    requires Shift(s, w, v) && a < 0x1_0000_0000_0000_0000
    ensures Funnel(a, b, s, w) % 0x100_0000_0000_0000 == a / s + w * (b % v) < 0x100_0000_0000_0000
  {
    FunnelIs(a, b, s, w, v);
    assert w * v == 0x100_0000_0000_0000 && s == 256 * v;
    hide *;
    LowerPart(b, v);
    MaskLimb(a / s, b % s, w, v);
  }

  lemma LowByte(b: nat)
    ensures b % 0x1_0000_0000 % 256 == b % 256
  {
  }

  lemma TopMask(c: nat, e: nat)
    requires c < 0x1_0000_0000
    ensures (c + 0x1_0000_0000 * e) % 0x100_0000_0000 == c + 0x1_0000_0000 * (e % 256)
  {
    DivUnique(c + 0x1_0000_0000 * e, 0x100_0000_0000, e / 256, c + 0x1_0000_0000 * (e % 256));
  }

  /** The 40 bits that start at bit 32 of the lower word. */
  lemma {:induction false} FunnelTop(a: nat, b: nat)
    requires a < 0x1_0000_0000_0000_0000
    ensures Funnel(a, b, 0x1_0000_0000, 0x1_0000_0000) % 0x100_0000_0000
         == a / 0x1_0000_0000 + 0x1_0000_0000 * (b % 256) < 0x100_0000_0000
  {
    FunnelIs(a, b, 0x1_0000_0000, 0x1_0000_0000, 0x100_0000);
    hide *;
    LowByte(b);
    TopMask(a / 0x1_0000_0000, b % 0x1_0000_0000);
  }

  function Words8(x: seq<int>): int
    requires |x| == 8
  {
    x[0] + 0x1_0000_0000_0000_0000
      * (x[1] + 0x1_0000_0000_0000_0000
      * (x[2] + 0x1_0000_0000_0000_0000
      * (x[3] + 0x1_0000_0000_0000_0000
      * (x[4] + 0x1_0000_0000_0000_0000 * (x[5] + 0x1_0000_0000_0000_0000 * (x[6] + 0x1_0000_0000_0000_0000 * x[7]))))))
  }

  ghost predicate AreWords(x: seq<int>) {
    |x| == 8 && forall i :: 0 <= i < 8 ==> 0 <= x[i] < 0x1_0000_0000_0000_0000
  }

  /** The low 264 bits, in limbs. */
  lemma {:induction false} LowEnd(x: seq<int>)
    requires AreWords(x)
    ensures Horner(x[0] % 0x100_0000_0000_0000, x[0] / 0x100_0000_0000_0000 + 0x100 * (x[1] % 0x1_0000_0000_0000),
                   x[1] / 0x1_0000_0000_0000 + 0x1_0000 * (x[2] % 0x100_0000_0000),
                   x[2] / 0x100_0000_0000 + 0x100_0000 * (x[3] % 0x1_0000_0000),
                   x[3] / 0x1_0000_0000 + 0x1_0000_0000 * (x[4] % 256)) == Words8(x) % P264
    ensures Words8(x) >= 0
  {
    var u := x[0] % 0x100_0000_0000_0000 + 0x100_0000_0000_0000 * (x[0] / 0x100_0000_0000_0000);
    var rest := x[4] / 256
      + 0x100000000000000 * (x[5] + 0x1_0000_0000_0000_0000 * (x[6] + 0x1_0000_0000_0000_0000 * x[7]));
    var low := Horner(x[0] % 0x100_0000_0000_0000, x[0] / 0x100_0000_0000_0000 + 0x100 * (x[1] % 0x1_0000_0000_0000),
                   x[1] / 0x1_0000_0000_0000 + 0x1_0000 * (x[2] % 0x100_0000_0000),
                   x[2] / 0x100_0000_0000 + 0x100_0000 * (x[3] % 0x1_0000_0000),
                   x[3] / 0x1_0000_0000 + 0x1_0000_0000 * (x[4] % 256));
    assert Words8(x) == P264 * rest + low;
    assert 0 <= low < P264;
    DivUnique(Words8(x), P264, rest, low);
  }

  /** The bits from 248 on, in limbs. */
  lemma {:induction false} HighEnd(x: seq<int>)
    requires AreWords(x)
    ensures Horner(x[3] / 0x100_0000_0000_0000 + 0x100 * (x[4] % 0x1_0000_0000_0000),
                   x[4] / 0x1_0000_0000_0000 + 0x1_0000 * (x[5] % 0x100_0000_0000),
                   x[5] / 0x100_0000_0000 + 0x100_0000 * (x[6] % 0x1_0000_0000),
                   x[6] / 0x1_0000_0000 + 0x1_0000_0000 * (x[7] % 0x100_0000), x[7] / 0x100_0000) == Words8(x) / P248
    ensures Words8(x) / P248 < P264
  {
    var low := x[0]
      + 0x1_0000_0000_0000_0000
      * (x[1] + 0x1_0000_0000_0000_0000 * (x[2] + 0x1_0000_0000_0000_0000 * (x[3] % 0x100_0000_0000_0000)));
    var q := Horner(x[3] / 0x100_0000_0000_0000 + 0x100 * (x[4] % 0x1_0000_0000_0000),
                   x[4] / 0x1_0000_0000_0000 + 0x1_0000 * (x[5] % 0x100_0000_0000),
                   x[5] / 0x100_0000_0000 + 0x100_0000 * (x[6] % 0x1_0000_0000),
                   x[6] / 0x1_0000_0000 + 0x1_0000_0000 * (x[7] % 0x100_0000), x[7] / 0x100_0000);
    assert Words8(x) == P248 * q + low;
    assert 0 <= low < P248;
    assert 0 <= q < P264;
    DivUnique(Words8(x), P248, q, low);
  }

  // ---------- bytes into words ----------

  lemma WordWidth()
    ensures Pow256(8) == 0x1_0000_0000_0000_0000
  {
    assert Pow256(4) == 0x1_0000_0000;
  }

  lemma {:induction false} FirstWord(s: seq<byte>)
    requires |s| >= 8
    ensures FromLe(s) == FromLe(s[..8]) + 0x1_0000_0000_0000_0000 * FromLe(s[8..])
      && FromLe(s[..8]) < 0x1_0000_0000_0000_0000
  {
    hide *;
    FromLeConcat(s[..8], s[8..]);
    assert s == s[..8] + s[8..];
    FromLeBound(s[..8]);
    WordWidth();
  }

  /** `U8TO64_LE` of the eight words. */
  function Loaded(s: seq<byte>): seq<nat> {
    if |s| < 8 then [] else [FromLe(s[..8])] + Loaded(s[8..])
  }

  function WordsVal(x: seq<nat>): int {
    if x == [] then 0 else x[0] + 0x1_0000_0000_0000_0000 * WordsVal(x[1..])
  }

  lemma {:induction false} LoadedValue(s: seq<byte>)
    requires |s| % 8 == 0
    ensures |Loaded(s)| == |s| / 8 && WordsVal(Loaded(s)) == FromLe(s)
    ensures forall i :: 0 <= i < |Loaded(s)| ==> Loaded(s)[i] < 0x1_0000_0000_0000_0000
  {
    if |s| >= 8 {
      LoadedValue(s[8..]);
      FirstWord(s);
      assert Loaded(s)[1..] == Loaded(s[8..]);
    }
  }

  lemma {:induction false} Words8Is(x: seq<nat>)
    requires |x| == 8
    ensures Words8(x) == WordsVal(x)
  {
    WordsStep(x, 0); WordsStep(x, 1); WordsStep(x, 2); WordsStep(x, 3);
    WordsStep(x, 4); WordsStep(x, 5); WordsStep(x, 6); WordsStep(x, 7);
    hide WordsVal;
    assert x[0..] == x;
  }

  lemma WordsStep(x: seq<nat>, i: nat)
    requires i < |x|
    ensures WordsVal(x[i..]) == x[i] + 0x1_0000_0000_0000_0000 * WordsVal(x[i + 1..]) && WordsVal(x[|x|..]) == 0
  {
    assert x[i..][1..] == x[i + 1..];
  }

  lemma {:induction false} LoadedWords(s: seq<byte>)
    requires |s| == 64
    ensures AreWords(Loaded(s)) && Words8(Loaded(s)) == FromLe(s)
  {
    hide Loaded, FromLe, WordsVal, Words8;
    LoadedValue(s);
    Words8Is(Loaded(s));
  }

  lemma {:induction false} ShortBelow(s: seq<byte>)
    requires |s| < 32
    ensures FromLe(s) < P248 < ORDER && P248 <= P264
  {
    hide FromLe, Pow256;
    FromLeBound(s);
    PowerMonotone(|s|, 31);
    Power31();
  }

  lemma {:induction false} PowerMonotone(a: nat, b: nat)
    requires a <= b
    ensures Pow256(a) <= Pow256(b)
  {
    if a < b {
      PowerMonotone(a, b - 1);
    }
  }

  /** The order of the base point, as RFC 8032 gives it in section 5.1. */
  lemma {:induction false} OrderIs()
    ensures ORDER == Pow2(252) + 27742317777372353535851937790883648493
  {
    hide Pow2;
    Pow2Values();
    Pow2Add(32, 32);
    Pow2Add(64, 64);
    Pow2Add(128, 128);
    Pow2Step(252); Pow2Step(253); Pow2Step(254); Pow2Step(255);
  }

  lemma {:induction false} Power31()
    ensures Pow256(31) == P248
  {
    hide Pow256;
    WordWidth();
    PowerAdd(8, 8); PowerAdd(16, 8); PowerAdd(24, 7);
    assert Pow256(7) == 0x100_0000_0000_0000 by { Power7(); }
  }

  lemma Power7()
    ensures Pow256(7) == 0x100_0000_0000_0000
  {
    assert Pow256(3) == 0x100_0000;
  }

  lemma {:induction false} PowerAdd(a: nat, b: nat)
    ensures Pow256(a + b) == Pow256(a) * Pow256(b)
  {
    if a > 0 {
      PowerAdd(a - 1, b);
      assert 256 * (Pow256(a - 1) * Pow256(b)) == Pow256(a) * Pow256(b);
    }
  }

  // ---------- expansion ----------

  method LowLimbs(out: array<u64>, x: seq<u64>)
    requires out.Length == 5 && AreWords(x)
    modifies out
    ensures Normal(out[..]) && 0 <= Words8(x) && Val(out[..]) == Words8(x) % P264
  {
    hide *;
    WordsAre(x);
    ShiftsAre();
    out[0] := x[0] % 0x100_0000_0000_0000;
    FunnelLimb(x[0], x[1], 0x100_0000_0000_0000, 0x100, 0x1_0000_0000_0000);
    out[1] := Funnel(x[0], x[1], 0x100_0000_0000_0000, 0x100) % 0x100_0000_0000_0000;
    FunnelLimb(x[1], x[2], 0x1_0000_0000_0000, 0x1_0000, 0x100_0000_0000);
    out[2] := Funnel(x[1], x[2], 0x1_0000_0000_0000, 0x1_0000) % 0x100_0000_0000_0000;
    FunnelLimb(x[2], x[3], 0x100_0000_0000, 0x100_0000, 0x1_0000_0000);
    out[3] := Funnel(x[2], x[3], 0x100_0000_0000, 0x100_0000) % 0x100_0000_0000_0000;
    FunnelTop(x[3], x[4]);
    out[4] := Funnel(x[3], x[4], 0x1_0000_0000, 0x1_0000_0000) % 0x100_0000_0000;
    NormalBy(out[..]);
    NormalVal(out[..]);
    LowEnd(x);
  }

  method HighLimbs(x: seq<u64>) returns (q1: seq<u64>)
    requires AreWords(x)
    ensures Normal(q1) && Val(q1) == Words8(x) / P248 < P264
  {
    hide *;
    WordsAre(x);
    ShiftsAre();
    FunnelLimb(x[3], x[4], 0x100_0000_0000_0000, 0x100, 0x1_0000_0000_0000);
    FunnelLimb(x[4], x[5], 0x1_0000_0000_0000, 0x1_0000, 0x100_0000_0000);
    FunnelLimb(x[5], x[6], 0x100_0000_0000, 0x100_0000, 0x1_0000_0000);
    FunnelLimb(x[6], x[7], 0x1_0000_0000, 0x1_0000_0000, 0x100_0000);
    q1 := [Funnel(x[3], x[4], 0x100_0000_0000_0000, 0x100) % 0x100_0000_0000_0000,
      Funnel(x[4], x[5], 0x1_0000_0000_0000, 0x1_0000) % 0x100_0000_0000_0000,
           Funnel(x[5], x[6], 0x100_0000_0000, 0x100_0000) % 0x100_0000_0000_0000,
           Funnel(x[6], x[7], 0x1_0000_0000, 0x1_0000_0000) % 0x100_0000_0000_0000, x[7] / 0x100_0000];
    NormalBy(q1);
    NormalVal(q1);
    HighEnd(x);
  }

  lemma WordsAre(x: seq<int>)
    requires AreWords(x)
    ensures |x| == 8 && forall i :: 0 <= i < 8 ==> 0 <= x[i] < 0x1_0000_0000_0000_0000
  {
  }

  lemma ShiftsAre()
    ensures Shift(0x100_0000_0000_0000, 0x100, 0x1_0000_0000_0000)
      && Shift(0x1_0000_0000_0000, 0x1_0000, 0x100_0000_0000)
    ensures Shift(0x100_0000_0000, 0x100_0000, 0x1_0000_0000) && Shift(0x1_0000_0000, 0x1_0000_0000, 0x100_0000)
  {
  }

  /** The bytes padded with zeros to eight words. */
  method Load(bytes: seq<byte>) returns (x: seq<u64>)
    requires |bytes| <= 64
    ensures AreWords(x) && Words8(x) == FromLe(bytes)
  {
    hide *;
    var zeros: seq<byte> := seq(64 - |bytes|, i => 0);
    var work := bytes + zeros;
    FromLeConcat(bytes, zeros);
    FromLeZeros(zeros);
    assert Pow256(|bytes|) * 0 == 0;
    LoadedWords(work);
    WordsAre(Loaded(work));
    x := Loaded(work);
  }

  lemma {:induction false} ShortIs(bytes: seq<byte>)
    requires |bytes| < 32
    ensures FromLe(bytes) % P264 == FromLe(bytes) % ORDER
  {
    ShortBelow(bytes);
    hide *;
    DivUnique(FromLe(bytes), P264, 0, FromLe(bytes));
    DivUnique(FromLe(bytes), ORDER, 0, FromLe(bytes));
  }

  /** `expand256_modm`: up to 64 bytes, little endian, modulo the order. */
  method Expand256(out: array<u64>, bytes: seq<byte>)
    requires out.Length == 5 && |bytes| <= 64
    modifies out
    ensures Normal(out[..]) && Val(out[..]) == FromLe(bytes) % ORDER
  {
    hide *;
    var x := Load(bytes);
    LowLimbs(out, x);
    if |bytes| < 32 {
      ShortIs(bytes);
      return;
    }
    var q1 := HighLimbs(x);
    BarrettReduce(out, q1, out, FromLe(bytes));
  }

  // ---------- contraction ----------

  /** The shifts of the way back: `s` is what the limb below has used up, and `w * s` is a limb. */
  predicate ShiftBack(s: nat, w: nat, v: nat) {
    || (s == 1 && w == 0x100_0000_0000_0000 && v == 0x100)
    || (s == 0x100 && w == 0x1_0000_0000_0000 && v == 0x1_0000)
    || (s == 0x1_0000 && w == 0x100_0000_0000 && v == 0x100_0000)
    || (s == 0x100_0000 && w == 0x1_0000_0000 && v == 0x1_0000_0000)
  }

  lemma ShiftBackPower(s: nat, w: nat, v: nat) returns (k: nat)
    requires ShiftBack(s, w, v)
    ensures Pow2(k) == w
  {
    hide Pow2;
    Pow2Values();
    Pow2Add(32, 16);
    Pow2Add(32, 8);
    Pow2Add(48, 8);
    k := if s == 1 then 56 else if s == 0x100 then 48 else if s == 0x1_0000 then 40 else 32;
  }

  lemma {:induction false} WordIs(a: nat, b: nat, s: nat, w: nat, v: nat)
    requires ShiftBack(s, w, v) && a < 0x100_0000_0000_0000
    ensures Funnel(a, b, s, w) == a / s + w * (b % v) < 0x1_0000_0000_0000_0000
  {
    var k := ShiftBackPower(s, w, v);
    hide Or, Pow2;
    JoinWord(a / s, b, w, v, k);
  }

  lemma {:induction false} FourWords(a0: nat, a1: nat, a2: nat, a3: nat, a4: nat)
    requires a4 < 0x1_0000_0000
    ensures Horner(a0, a1, a2, a3, a4)
         == a0 + 0x100_0000_0000_0000 * (a1 % 0x100)
           + 0x1_0000_0000_0000_0000 * (a1 / 0x100 + 0x1_0000_0000_0000 * (a2 % 0x1_0000)
            + 0x1_0000_0000_0000_0000 * (a2 / 0x1_0000 + 0x100_0000_0000 * (a3 % 0x100_0000)
            + 0x1_0000_0000_0000_0000 * (a3 / 0x100_0000 + 0x1_0000_0000 * (a4 % 0x1_0000_0000))))
  {
  }

  lemma {:induction false} Le32(w0: nat, w1: nat, w2: nat, w3: nat)
    requires w0 < 0x1_0000_0000_0000_0000 && w1 < 0x1_0000_0000_0000_0000 && w2 < 0x1_0000_0000_0000_0000
    ensures Le(w0 + 0x1_0000_0000_0000_0000 * (w1 + 0x1_0000_0000_0000_0000 * (w2 + 0x1_0000_0000_0000_0000 * w3)),
      32) == Le(w0, 8) + Le(w1, 8) + Le(w2, 8) + Le(w3, 8)
  {
    hide *;
    WordWidth();
    LeConcat(w2, w3, 8, 8);
    LeConcat(w1, w2 + 0x1_0000_0000_0000_0000 * w3, 8, 16);
    LeConcat(w0, w1 + 0x1_0000_0000_0000_0000 * (w2 + 0x1_0000_0000_0000_0000 * w3), 8, 24);
  }

  /** `contract256_modm`: the 32 little-endian bytes of a scalar below 2^256. */
  method Contract256(s: seq<u64>) returns (out: seq<byte>)
    requires Normal(s) && s[4] < 0x1_0000_0000
    ensures Val(s) >= 0 && out == Le(Val(s), 32)
  {
    hide *;
    NormalVal(s);
    ShiftsBackAre();
    WordIs(s[0], s[1], 1, 0x100_0000_0000_0000, 0x100);
    WordIs(s[1], s[2], 0x100, 0x1_0000_0000_0000, 0x1_0000);
    WordIs(s[2], s[3], 0x1_0000, 0x100_0000_0000, 0x100_0000);
    WordIs(s[3], s[4], 0x100_0000, 0x1_0000_0000, 0x1_0000_0000);
    var w0 := Funnel(s[0], s[1], 1, 0x100_0000_0000_0000);
    var w1 := Funnel(s[1], s[2], 0x100, 0x1_0000_0000_0000);
    var w2 := Funnel(s[2], s[3], 0x1_0000, 0x100_0000_0000);
    var w3 := Funnel(s[3], s[4], 0x100_0000, 0x1_0000_0000);
    FourWords(s[0], s[1], s[2], s[3], s[4]);
    Le32(w0, w1, w2, w3);
    out := Le(w0, 8) + Le(w1, 8) + Le(w2, 8) + Le(w3, 8);
  }

  lemma ShiftsBackAre()
    ensures ShiftBack(1, 0x100_0000_0000_0000, 0x100) && ShiftBack(0x100, 0x1_0000_0000_0000, 0x1_0000)
    ensures ShiftBack(0x1_0000, 0x100_0000_0000, 0x100_0000) && ShiftBack(0x100_0000, 0x1_0000_0000, 0x1_0000_0000)
  {
  }
}
