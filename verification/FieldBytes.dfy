/** `curve25519_contract` and `curve25519_expand`: the canonical bytes of a field element, and back. */
module FieldBytes {
  import opened Binary
  import opened Words
  import opened Arith
  import opened Digests
  import opened Bytes
  import opened Limbs
  import opened PrimeField
  import opened Field
  import opened FieldMul
  import opened ModmBytes

  // ---------- the canonical representative ----------

  const P255: nat := 0x8000000000000000_0000000000000000_0000000000000000_0000000000000000

  lemma {:induction false} Carried(t: seq<int>, c0: int, d0: int, c1: int, d1: int, c2: int, d2: int, c3: int, d3: int)
    requires |t| == 5 && t[0] == 0x8_0000_0000_0000 * c0 + d0 && t[1] + c0 == 0x8_0000_0000_0000 * c1 + d1
    requires t[2] + c1 == 0x8_0000_0000_0000 * c2 + d2 && t[3] + c2 == 0x8_0000_0000_0000 * c3 + d3
    ensures Eval5(t[0], t[1], t[2], t[3], t[4]) == Eval5(d0, d1, d2, d3, t[4] + c3)
  {
  }

  /** `curve25519_contract_carry`, with the top limb cut as well: `c` is what it held above 51 bits. */
  method ContractCarry(t: Fe) returns (d: Fe, c: u64)
    requires Bounded(t, 0x8000_0000_0000_0000)
    ensures Bounded(d, 0x8_0000_0000_0000) && Eval(t) == Eval(d) + P255 * c && c <= 0x1000
  {
    var c0, d0 := Split51(t[0]);
    var c1, d1 := Split51(t[1] + c0);
    var c2, d2 := Split51(t[2] + c1);
    var c3, d3 := Split51(t[3] + c2);
    Carried(t, c0, d0, c1, d1, c2, d2, c3, d3);
    var d4;
    c, d4 := Split51(t[4] + c3);
    d := [d0, d1, d2, d3, d4];
  }

  lemma NormalRange(d: Fe)
    requires Bounded(d, 0x8_0000_0000_0000)
    ensures 0 <= Eval(d) < P255 && d[0] <= Eval(d)
  {
  }

  /** `curve25519_contract_carry_full`: what leaves the top comes back at the bottom times 19. */
  method CarryFull(t: Fe) returns (d: Fe)
    requires Bounded(t, 0x8000_0000_0000_0000)
    ensures Bounded(d, 0x8_0000_0000_0000 + 0x1_4000)
    ensures 0 <= Eval(d) < P255 + 0x1_4000 && Cong(Eval(t), Eval(d))
    ensures Eval(t) < P255 + 0x2_0000 ==>
      Bounded(d, 0x8_0000_0000_0000) && Eval(d) == if Eval(t) < P255 then Eval(t) else Eval(t) - P
  {
    var e, c := ContractCarry(t);
    NormalRange(e);
    d := e[0 := e[0] + 19 * c];
    assert Eval(d) == Eval(e) + 19 * c;
    assert Eval(t) == Eval(d) + P * c;
    CongBy(Eval(t), Eval(d), c);
  }

  /** `t[0] += 19` */
  method AddNineteen(t: Fe) returns (u: Fe)
    requires Bounded(t, 0x8_0000_0000_0000)
    ensures Eval(u) == Eval(t) + 19 && Bounded(u, 0x8000_0000_0000_0000)
  {
    u := t[0 := t[0] + 19];
  }

  lemma TopIsOne(v: int, d: int, c: int)
    requires P255 <= v < 2 * P255 && 0 <= d < P255 && v == d + P255 * c
    ensures c == 1
  {
  }

  lemma PIs()
    ensures P == P255 - 19 && P255 > 0x10_0000
  {
  }

  lemma {:induction false} Representative(v0: int, v2: int, v4: int)
    requires Cong(v0, v2) && 0 <= v2 < P255 && v4 == (if v2 + 19 < P255 then v2 + 19 else v2 + 19 - P)
    ensures v4 - 19 == v0 % P && 19 <= v4 < P255
  {
    PIs();
    if v2 < P {
      DivUnique(v2, P, 0, v2);
    } else {
      DivUnique(v2, P, 1, v2 - P);
    }
  }

  /** The limbs of the one number below the prime that is equal to `a` modulo it. */
  method Canonical(a: Fe) returns (t: Fe)
    requires Bounded(a, 0x8000_0000_0000_0000)
    ensures Bounded(t, 0x8_0000_0000_0000) && Eval(t) == Eval(a) % P
  {
    hide *;
    PIs();
    t := CarryFull(a);
    Widen(t, 0x8_0000_0000_0000 + 0x1_4000, 0x8000_0000_0000_0000);
    ghost var v1 := Eval(t);
    t := CarryFull(t);
    NormalRange(t);
    ghost var v2 := Eval(t);
    CongTrans(Eval(a), v1, v2);
    var u := AddNineteen(t);
    t := CarryFull(u);
    ghost var v4 := Eval(t);
    Representative(Eval(a), v2, v4);
    u := AddAll(t);
    var d, c := ContractCarry(u);
    NormalRange(d);
    TopIsOne(Eval(u), Eval(d), c);
    t := d;
  }

  /** Adds `2^255 - 19`, limb by limb. */
  method AddAll(t: Fe) returns (u: Fe)
    requires Bounded(t, 0x8_0000_0000_0000)
    ensures Eval(u) == Eval(t) + P255 - 19 && Bounded(u, 0x8000_0000_0000_0000)
  {
    u := [t[0] + 0x8_0000_0000_0000 - 19, t[1] + 0x8_0000_0000_0000 - 1, t[2] + 0x8_0000_0000_0000 - 1,
          t[3] + 0x8_0000_0000_0000 - 1, t[4] + 0x8_0000_0000_0000 - 1];
  }

  // ---------- limbs into bytes ----------

  /** The shifts in use: `s` is the part of the limb already written and `w` what is left of it. */
  predicate WriteShift(s: nat, w: nat, v: nat, k: nat) {
    || (s == 0x1 && w == 0x8_0000_0000_0000 && v == 0x2000 && k == 51)
    || (s == 0x2000 && w == 0x40_0000_0000 && v == 0x400_0000 && k == 38)
    || (s == 0x400_0000 && w == 0x200_0000 && v == 0x80_0000_0000 && k == 25)
    || (s == 0x80_0000_0000 && w == 0x1000 && v == 0x10_0000_0000_0000 && k == 12)
  }

  lemma {:induction false} MorePowers()
    ensures Pow2(12) == 0x1000 && Pow2(13) == 0x2000 && Pow2(25) == 0x200_0000 && Pow2(26) == 0x400_0000
    ensures Pow2(38) == 0x40_0000_0000 && Pow2(39) == 0x80_0000_0000 && Pow2(51) == 0x8_0000_0000_0000
  {
    hide *;
    Pow2Values();
    Pow2Step(8); Pow2Step(9); Pow2Step(10); Pow2Step(11); Pow2Step(12);
    Pow2Add(12, 13); Pow2Add(13, 13); Pow2Add(25, 13); Pow2Add(26, 13); Pow2Add(38, 13);
  }

  lemma {:induction false} WriteIs(a: nat, b: nat, s: nat, w: nat, v: nat, k: nat)
    requires WriteShift(s, w, v, k) && a < 0x8_0000_0000_0000
    ensures Funnel(a, b, s, w) == a / s + w * (b % v) < 0x1_0000_0000_0000_0000
  {
    hide Or, Pow2;
    MorePowers();
    JoinWord(a / s, b, w, v, k);
  }

  lemma {:induction false} FourParts(a0: nat, a1: nat, a2: nat, a3: nat, a4: nat)
    requires a4 < 0x8_0000_0000_0000
    ensures Eval5(a0, a1, a2, a3, a4)
         == a0 / 1 + 0x8_0000_0000_0000 * (a1 % 0x2000)
           + 0x1_0000_0000_0000_0000 * (a1 / 0x2000 + 0x40_0000_0000 * (a2 % 0x400_0000)
            + 0x1_0000_0000_0000_0000 * (a2 / 0x400_0000 + 0x200_0000 * (a3 % 0x80_0000_0000)
            + 0x1_0000_0000_0000_0000 * (a3 / 0x80_0000_0000 + 0x1000 * (a4 % 0x10_0000_0000_0000))))
  {
  }

  lemma LeStep(f: nat, n: nat)
    requires n > 0
    ensures Le(f, n) == [f % 256] + Le(f / 256, n - 1) && Le(f, 0) == []
  {
  }

  /** The eight bytes of a word, one after the other. */
  method Write8(f0: u64) returns (out: seq<byte>)
    ensures out == Le(f0, 8)
  {
    hide *;
    out := [];
    var f: nat := f0;
    for i := 0 to 8
      invariant out + Le(f, 8 - i) == Le(f0, 8)
    {
      LeStep(f, 8 - i);
      ghost var rest := Le(f / 256, 7 - i);
      assert out + ([f % 256] + rest) == (out + [f % 256]) + rest;
      out := out + [f % 256];
      f := f / 256;
    }
    LeStep(f, 1);
  }

  lemma WriteShifts()
    ensures WriteShift(1, 0x8_0000_0000_0000, 0x2000, 51) && WriteShift(0x2000, 0x40_0000_0000, 0x400_0000, 38)
    ensures WriteShift(0x400_0000, 0x200_0000, 0x80_0000_0000, 25)
      && WriteShift(0x80_0000_0000, 0x1000, 0x10_0000_0000_0000, 12)
  {
  }

  /** `curve25519_contract`: the little-endian bytes of the representative below the prime. */
  method Contract(a: Fe) returns (out: seq<byte>)
    requires Bounded(a, 0x8000_0000_0000_0000)
    ensures out == Le(Eval(a) % P, 32)
  {
    hide *;
    var t := Canonical(a);
    LimbsBelow(t);
    WriteShifts();
    EvalIs(t);
    WriteIs(t[0], t[1], 1, 0x8_0000_0000_0000, 0x2000, 51);
    WriteIs(t[1], t[2], 0x2000, 0x40_0000_0000, 0x400_0000, 38);
    WriteIs(t[2], t[3], 0x400_0000, 0x200_0000, 0x80_0000_0000, 25);
    WriteIs(t[3], t[4], 0x80_0000_0000, 0x1000, 0x10_0000_0000_0000, 12);
    var w0 := Funnel(t[0], t[1], 1, 0x8_0000_0000_0000);
    var w1 := Funnel(t[1], t[2], 0x2000, 0x40_0000_0000);
    var w2 := Funnel(t[2], t[3], 0x400_0000, 0x200_0000);
    var w3 := Funnel(t[3], t[4], 0x80_0000_0000, 0x1000);
    FourParts(t[0], t[1], t[2], t[3], t[4]);
    Le32(w0, w1, w2, w3);
    var b0 := Write8(w0);
    var b1 := Write8(w1);
    var b2 := Write8(w2);
    var b3 := Write8(w3);
    out := b0 + b1 + b2 + b3;
  }

  lemma LimbsBelow(t: Fe)
    requires Bounded(t, 0x8_0000_0000_0000)
    ensures t[0] < 0x8_0000_0000_0000 && t[1] < 0x8_0000_0000_0000 && t[2] < 0x8_0000_0000_0000
      && t[3] < 0x8_0000_0000_0000 && t[4] < 0x8_0000_0000_0000
  {
  }

  // ---------- bytes into limbs ----------

  lemma {:induction false} Mask51(c: nat, e: nat, w: nat, v: nat)
    requires v > 0 && w * v == 0x8_0000_0000_0000 && c < w
    ensures (c + w * e) % 0x8_0000_0000_0000 == c + w * (e % v) < 0x8_0000_0000_0000
  {
    var q, m := e / v, e % v;
    assert e == v * q + m;
    assert w * e == w * (v * q) + w * m;
    assert w * (v * q) == (w * v) * q;
    MulGap(w, v, m);
    DivUnique(c + w * e, 0x8_0000_0000_0000, q, c + w * m);
  }

  lemma {:induction false} LowOfLow(b: nat, v: nat)
    requires v > 0
    ensures b % (0x2000 * v) % v == b % v
  {
    var q, e := b / (0x2000 * v), b % (0x2000 * v);
    assert b == (0x2000 * v) * q + e && (0x2000 * v) * q == v * (0x2000 * q);
    assert e == v * (e / v) + e % v;
    assert v * (0x2000 * q + e / v) == v * (0x2000 * q) + v * (e / v);
    DivUnique(b, v, 0x2000 * q + e / v, e % v);
  }

  /** The shifts of the way in: `s` is shifted out of the lower word and `w` is the weight of the upper one. */
  predicate ReadShift(s: nat, w: nat, v: nat, k: nat) {
    || (s == 0x8_0000_0000_0000 && w == 0x2000 && v == 0x40_0000_0000 && k == 13)
    || (s == 0x40_0000_0000 && w == 0x400_0000 && v == 0x200_0000 && k == 26)
    || (s == 0x200_0000 && w == 0x80_0000_0000 && v == 0x1000 && k == 39)
  }

  lemma {:induction false} ReadJoins(a: nat, b: nat, s: nat, w: nat, v: nat, k: nat)
    requires ReadShift(s, w, v, k) && a < 0x1_0000_0000_0000_0000
    ensures Funnel(a, b, s, w) == a / s + w * (b % s) && a / s < w
  {
    hide Or, Pow2;
    MorePowers();
    JoinWord(a / s, b, w, s, k);
  }

  /** The limb that begins in the word `a` and ends in the word `b`. */
  lemma {:induction false} ReadIs(a: nat, b: nat, s: nat, w: nat, v: nat, k: nat)
    requires ReadShift(s, w, v, k) && a < 0x1_0000_0000_0000_0000
    ensures Funnel(a, b, s, w) % 0x8_0000_0000_0000 == a / s + w * (b % v) < 0x8_0000_0000_0000
  {
    ReadJoins(a, b, s, w, v, k);
    assert w * v == 0x8_0000_0000_0000 && s == 0x2000 * v;
    hide *;
    LowOfLow(b, v);
    Mask51(a / s, b % s, w, v);
  }

  lemma ReadShifts()
    ensures ReadShift(0x8_0000_0000_0000, 0x2000, 0x40_0000_0000, 13)
      && ReadShift(0x40_0000_0000, 0x400_0000, 0x200_0000, 26)
    ensures ReadShift(0x200_0000, 0x80_0000_0000, 0x1000, 39)
  {
  }

  lemma {:induction false} FourWords51(x0: nat, x1: nat, x2: nat, x3: nat)
    requires x0 < 0x1_0000_0000_0000_0000 && x1 < 0x1_0000_0000_0000_0000 && x2 < 0x1_0000_0000_0000_0000
      && x3 < 0x1_0000_0000_0000_0000
    ensures Eval5(x0 % 0x8_0000_0000_0000, x0 / 0x8_0000_0000_0000 + 0x2000 * (x1 % 0x40_0000_0000),
      x1 / 0x40_0000_0000 + 0x400_0000 * (x2 % 0x200_0000),
                  x2 / 0x200_0000 + 0x80_0000_0000 * (x3 % 0x1000), (x3 / 0x1000) % 0x8_0000_0000_0000)
         == (x0 + 0x1_0000_0000_0000_0000 * (x1 + 0x1_0000_0000_0000_0000 * (x2 + 0x1_0000_0000_0000_0000 * x3))) % P255
  {
    var n := x0 + 0x1_0000_0000_0000_0000 * (x1 + 0x1_0000_0000_0000_0000 * (x2 + 0x1_0000_0000_0000_0000 * x3));
    var low := Eval5(x0 % 0x8_0000_0000_0000, x0 / 0x8_0000_0000_0000 + 0x2000 * (x1 % 0x40_0000_0000),
      x1 / 0x40_0000_0000 + 0x400_0000 * (x2 % 0x200_0000),
                     x2 / 0x200_0000 + 0x80_0000_0000 * (x3 % 0x1000), (x3 / 0x1000) % 0x8_0000_0000_0000);
    var top := (x3 / 0x1000) / 0x8_0000_0000_0000;
    assert n == P255 * top + low;
    assert 0 <= low < P255;
    DivUnique(n, P255, top, low);
  }

  lemma {:induction false} FourLoaded(bytes: seq<byte>)
    requires |bytes| == 32
    ensures var b1, b2, b3 := bytes[8..], bytes[16..], bytes[24..];
            FromLe(bytes) == FromLe(bytes[..8])
              + 0x1_0000_0000_0000_0000 * (FromLe(b1[..8])
              + 0x1_0000_0000_0000_0000 * (FromLe(b2[..8]) + 0x1_0000_0000_0000_0000 * FromLe(b3[..8])))
    ensures FromLe(bytes[..8]) < 0x1_0000_0000_0000_0000 && FromLe(bytes[8..][..8]) < 0x1_0000_0000_0000_0000
    ensures FromLe(bytes[16..][..8]) < 0x1_0000_0000_0000_0000 && FromLe(bytes[24..][..8]) < 0x1_0000_0000_0000_0000
  {
    var b1, b2, b3 := bytes[8..], bytes[16..], bytes[24..];
    assert b1[8..] == b2 && b2[8..] == b3;
    assert b3[8..] == [];
    FromLeEmpty();
    hide FromLe;
    FirstWord(bytes);
    FirstWord(b1);
    FirstWord(b2);
    FirstWord(b3);
  }

  lemma FromLeEmpty()
    ensures FromLe([]) == 0
  {
  }

  /** `curve25519_expand`: the low 255 bits of 32 bytes. */
  method Expand(bytes: seq<byte>) returns (out: Fe)
    requires |bytes| == 32
    ensures Bounded(out, 0x8_0000_0000_0000) && Eval(out) == FromLe(bytes) % P255
  {
    hide *;
    FourLoaded(bytes);
    var x0, x1, x2, x3 := FromLe(bytes[..8]), FromLe(bytes[8..][..8]), FromLe(bytes[16..][..8]),
      FromLe(bytes[24..][..8]);
    ReadShifts();
    ReadIs(x0, x1, 0x8_0000_0000_0000, 0x2000, 0x40_0000_0000, 13);
    ReadIs(x1, x2, 0x40_0000_0000, 0x400_0000, 0x200_0000, 26);
    ReadIs(x2, x3, 0x200_0000, 0x80_0000_0000, 0x1000, 39);
    out := [x0 % 0x8_0000_0000_0000, Funnel(x0, x1, 0x8_0000_0000_0000, 0x2000) % 0x8_0000_0000_0000,
      Funnel(x1, x2, 0x40_0000_0000, 0x400_0000) % 0x8_0000_0000_0000,
            Funnel(x2, x3, 0x200_0000, 0x80_0000_0000) % 0x8_0000_0000_0000, (x3 / 0x1000) % 0x8_0000_0000_0000];
    BelowBy(out);
    EvalIs(out);
    FourWords51(x0, x1, x2, x3);
  }

  lemma BelowBy(t: Fe)
    requires t[0] < 0x8_0000_0000_0000 && t[1] < 0x8_0000_0000_0000 && t[2] < 0x8_0000_0000_0000
      && t[3] < 0x8_0000_0000_0000 && t[4] < 0x8_0000_0000_0000
    ensures Bounded(t, 0x8_0000_0000_0000)
  {
  }

  /** Reading and writing back: the low 255 bits, reduced. */
  method Recode(bytes: seq<byte>) returns (out: seq<byte>)
    requires |bytes| == 32
    ensures out == Le((FromLe(bytes) % P255) % P, 32)
  {
    hide *;
    var t := Expand(bytes);
    Wider(t);
    out := Contract(t);
  }

  lemma Wider(t: Fe)
    requires Bounded(t, 0x8_0000_0000_0000)
    ensures Bounded(t, 0x8000_0000_0000_0000)
  {
  }

  /** Exactly the encodings of numbers below the prime come back unchanged. */
  lemma {:induction false} CanonicalIff(bytes: seq<byte>)
    requires |bytes| == 32
    ensures Le((FromLe(bytes) % P255) % P, 32) == bytes <==> FromLe(bytes) < P
  {
    var v := FromLe(bytes);
    Below255(v);
    BytesAreEnough();
    hide *;
    LeFromLe(bytes);
    LeRoundTrip((v % P255) % P, 32);
  }

  /** The prime, as RFC 8032 gives it in section 5.1. */
  lemma {:induction false} PrimeIs()
    ensures P == Pow2(255) - 19 && P255 == Pow2(255)
  {
    hide Pow2;
    Pow2Values();
    Pow2Add(32, 32);
    Pow2Add(64, 64);
    Pow2Add(128, 128);
    Pow2Step(255);
  }

  lemma Below255(v: nat)
    ensures (v % P255) % P < P && (v < P ==> (v % P255) % P == v)
  {
  }

  lemma {:induction false} BytesAreEnough()
    ensures P < Pow256(32)
  {
    Power31();
    assert Pow256(32) == 256 * Pow256(31);
  }
}
