/** `hashtree::bits`: counting one bits with a multiplication, a mask and a remainder. */
module Popcount {
  import opened Binary
  import opened Words

  function BitAt(x: nat, p: nat): nat {
    Shr(x, p) % 2
  }

  /** The bits at positions 0, s, 2s, .. of `n` strides, as a sum. */
  function Strided(x: nat, s: nat, n: nat): nat
    decreases n
  {
    if n == 0 then 0 else x % 2 + Strided(Shr(x, s), s, n - 1)
  }

  /** The mask with a one at each of those positions. */
  function Every(s: nat, n: nat): nat {
    if n == 0 then 0 else 1 + Pow2(s) * Every(s, n - 1)
  }

  lemma {:induction false} StrideDefs(x: nat, s: nat, n: nat)
    requires n > 0
    ensures Strided(x, s, n) == x % 2 + Strided(Shr(x, s), s, n - 1)
    ensures Every(s, n) == 1 + Pow2(s) * Every(s, n - 1)
  {
  }

  lemma {:induction false} AndStride(x: nat, s: nat, m: nat)
    requires s > 0
    ensures And(x, 1 + Pow2(s) * m) == x % 2 + Pow2(s) * And(Shr(x, s), m)
  {
    hide *;
    BitsDef(x, s);
    Pow2Step(s - 1);
    AndOdd(x, Pow2(s - 1) * m);
    AndShift(x / 2, m, s - 1);
    MulDouble(Pow2(s - 1), m);
    MulDouble(Pow2(s - 1), And(Shr(x, s), m));
  }

  /** The masked word is congruent to the number of its ones modulo `2^s - 1`. */
  lemma {:induction false} MaskedSum(x: nat, s: nat, n: nat) returns (q: nat)
    requires s > 0
    ensures And(x, Every(s, n)) == Strided(x, s, n) + q * (Pow2(s) - 1)
    decreases n
  {
    if n == 0 {
      q := 0;
    } else {
      hide *;
      var a := And(Shr(x, s), Every(s, n - 1));
      var q' := MaskedSum(Shr(x, s), s, n - 1);
      StrideDefs(x, s, n);
      AndStride(x, s, Every(s, n - 1));
      q := a + q';
      SplitProduct(Pow2(s), a, q');
    }
  }

  lemma SplitProduct(p: nat, a: nat, q: nat)
    ensures p * a == a + (a + q) * (p - 1) - q * (p - 1)
  {
  }

  // ---------- copies ----------

  lemma {:induction false} ShrAdd(x: nat, a: nat, b: nat)
    ensures Shr(Shr(x, a), b) == Shr(x, a + b)
    decreases a
  {
    if a > 0 {
      ShrAdd(x / 2, a - 1, b);
    }
  }

  /** The low `w` bits of `v + 2^w y` are those of `v`, and the rest is `y`. */
  lemma {:induction false} FieldBits(v: nat, y: nat, w: nat, p: nat)
    requires v < Pow2(w)
    ensures p < w ==> BitAt(v + Pow2(w) * y, p) == BitAt(v, p)
    ensures Shr(v + Pow2(w) * y, w) == y
    decreases w
  {
    var x := v + Pow2(w) * y;
    if w > 0 {
      assert Pow2(w) * y == 2 * (Pow2(w - 1) * y) by { MulDouble(Pow2(w - 1), y); }
      assert x / 2 == v / 2 + Pow2(w - 1) * y && x % 2 == v % 2;
      assert Shr(x, w) == Shr(x / 2, w - 1);
      if 0 < p < w {
        FieldBits(v / 2, y, w - 1, p - 1);
        assert Shr(x, p) == Shr(x / 2, p - 1) && Shr(v, p) == Shr(v / 2, p - 1);
      } else {
        FieldBits(v / 2, y, w - 1, 0);
        assert p == 0 ==> Shr(x, p) == x && Shr(v, p) == v;
      }
    }
  }

  lemma CopyIs(v: nat, p: nat, e: nat)
    ensures v * (1 + p * e) == v + p * (v * e)
  {
  }

  /** Bit `b` of copy `c` is bit `b` of the field. */
  lemma {:induction false} CopyBit(v: nat, w: nat, r: nat, c: nat, b: nat)
    requires v < Pow2(w) && b < w && c < r
    ensures BitAt(v * Every(w, r), c * w + b) == BitAt(v, b)
    decreases r
  {
    hide Shr, Every, Pow2;
    StrideDefs(0, w, r);
    var y := v * Every(w, r - 1);
    CopyIs(v, Pow2(w), Every(w, r - 1));
    FieldBits(v, y, w, b);
    if c > 0 {
      CopyBit(v, w, r - 1, c - 1, b);
      ShrAdd(v * Every(w, r), w, (c - 1) * w + b);
      assert w + ((c - 1) * w + b) == c * w + b;
    }
  }

  /** The sum of `BitAt` at positions `p`, `p + s`, .. */
  function StridedFrom(x: nat, p: nat, s: nat, n: nat): nat
    decreases n
  {
    if n == 0 then 0 else BitAt(x, p) + StridedFrom(x, p + s, s, n - 1)
  }

  lemma {:induction false} StridedIs(x: nat, p: nat, s: nat, n: nat)
    ensures Strided(Shr(x, p), s, n) == StridedFrom(x, p, s, n)
    decreases n
  {
    if n > 0 {
      StridedIs(x, p + s, s, n - 1);
      ShrAdd(x, p, s);
    }
  }

  function LowBits(v: nat, k: nat): nat {
    if k == 0 then 0 else LowBits(v, k - 1) + BitAt(v, k - 1)
  }

  lemma {:induction false} LowBitsIsPop(v: nat, k: nat)
    requires v < Pow2(k)
    ensures LowBits(v, k) == Pop(v)
  {
    LowBitsIsLowPop(v, k);
    PopSplit(v, k);
    ShrZero(v, k);
  }

  lemma {:induction false} LowBitsIsLowPop(v: nat, k: nat)
    ensures LowBits(v, k) == LowPop(v, k)
  {
    if k > 0 {
      LowBitsIsLowPop(v, k - 1);
      LowPopStep(v, k - 1);
    }
  }

  lemma {:induction false} StridedDef(x: nat, p: nat, s: nat, n: nat)
    ensures StridedFrom(x, p, s, n) == if n == 0 then 0 else BitAt(x, p) + StridedFrom(x, p + s, s, n - 1)
  {
  }

  lemma {:induction false} LowBitsDef(v: nat, k: nat)
    ensures LowBits(v, k) == if k == 0 then 0 else LowBits(v, k - 1) + BitAt(v, k - 1)
  {
  }

  /** Twelve strides of five over copies of a 12-bit field meet each of its bits once. */
  lemma {:induction false} Strides12(v: nat, e: nat, x: nat)
    requires v < Pow2(12) && e == Every(12, 5) && x == v * e
    ensures Strided(x, 5, 12) == Pop(v)
  {
    hide *;
    LowBitsIsPop(v, 12);
    StridedIs(x, 0, 5, 12);
    BitsZero(x);
    LowBitsDef(v, 0);
    StridedDef(x, 60, 5, 0);
    StridedDef(x, 0, 5, 12); StridedDef(x, 5, 5, 11); StridedDef(x, 10, 5, 10); StridedDef(x, 15, 5, 9);
    StridedDef(x, 20, 5, 8); StridedDef(x, 25, 5, 7); StridedDef(x, 30, 5, 6); StridedDef(x, 35, 5, 5);
    StridedDef(x, 40, 5, 4); StridedDef(x, 45, 5, 3); StridedDef(x, 50, 5, 2); StridedDef(x, 55, 5, 1);
    CopyBit(v, 12, 5, 0, 0);
    CopyBit(v, 12, 5, 0, 5);
    CopyBit(v, 12, 5, 0, 10);
    CopyBit(v, 12, 5, 1, 3);
    CopyBit(v, 12, 5, 1, 8);
    CopyBit(v, 12, 5, 2, 1);
    CopyBit(v, 12, 5, 2, 6);
    CopyBit(v, 12, 5, 2, 11);
    CopyBit(v, 12, 5, 3, 4);
    CopyBit(v, 12, 5, 3, 9);
    CopyBit(v, 12, 5, 4, 2);
    CopyBit(v, 12, 5, 4, 7);
    LowBitsDef(v, 1); LowBitsDef(v, 2); LowBitsDef(v, 3); LowBitsDef(v, 4); LowBitsDef(v, 5); LowBitsDef(v, 6);
    LowBitsDef(v, 7); LowBitsDef(v, 8); LowBitsDef(v, 9); LowBitsDef(v, 10); LowBitsDef(v, 11); LowBitsDef(v, 12);
  }

  /** Fifteen strides of four over copies of a 15-bit field meet each of its bits once. */
  lemma {:induction false} Strides15(v: nat, e: nat, x: nat)
    requires v < Pow2(15) && e == Every(15, 4) && x == v * e
    ensures Strided(x, 4, 15) == Pop(v)
  {
    hide *;
    LowBitsIsPop(v, 15);
    StridedIs(x, 0, 4, 15);
    BitsZero(x);
    LowBitsDef(v, 0);
    StridedDef(x, 60, 4, 0);
    StridedDef(x, 0, 4, 15); StridedDef(x, 4, 4, 14); StridedDef(x, 8, 4, 13); StridedDef(x, 12, 4, 12);
    StridedDef(x, 16, 4, 11); StridedDef(x, 20, 4, 10); StridedDef(x, 24, 4, 9); StridedDef(x, 28, 4, 8);
    StridedDef(x, 32, 4, 7); StridedDef(x, 36, 4, 6); StridedDef(x, 40, 4, 5); StridedDef(x, 44, 4, 4);
    StridedDef(x, 48, 4, 3); StridedDef(x, 52, 4, 2); StridedDef(x, 56, 4, 1);
    CopyBit(v, 15, 4, 0, 0);
    CopyBit(v, 15, 4, 0, 4);
    CopyBit(v, 15, 4, 0, 8);
    CopyBit(v, 15, 4, 0, 12);
    CopyBit(v, 15, 4, 1, 1);
    CopyBit(v, 15, 4, 1, 5);
    CopyBit(v, 15, 4, 1, 9);
    CopyBit(v, 15, 4, 1, 13);
    CopyBit(v, 15, 4, 2, 2);
    CopyBit(v, 15, 4, 2, 6);
    CopyBit(v, 15, 4, 2, 10);
    CopyBit(v, 15, 4, 2, 14);
    CopyBit(v, 15, 4, 3, 3);
    CopyBit(v, 15, 4, 3, 7);
    CopyBit(v, 15, 4, 3, 11);
    LowBitsDef(v, 1); LowBitsDef(v, 2); LowBitsDef(v, 3); LowBitsDef(v, 4); LowBitsDef(v, 5); LowBitsDef(v, 6);
    LowBitsDef(v, 7); LowBitsDef(v, 8); LowBitsDef(v, 9); LowBitsDef(v, 10); LowBitsDef(v, 11); LowBitsDef(v, 12);
    LowBitsDef(v, 13); LowBitsDef(v, 14); LowBitsDef(v, 15);
  }

  lemma {:induction false} EveryDef(s: nat, p: nat, n: nat)
    requires Pow2(s) == p
    ensures Every(s, 0) == 0 && Every(s, n + 1) == 1 + p * Every(s, n)
  {
  }

  /** The multipliers of `bits` make copies. */
  lemma {:induction false} Multipliers()
    ensures Every(15, 4) == 0x2000_4000_8001 && Pow2(15) == 0x8000
    ensures Every(12, 5) == 0x1_0010_0100_1001 && Pow2(12) == 0x1000
  {
    hide *;
    Pow2Small();
    EveryDef(15, 0x8000, 0); EveryDef(15, 0x8000, 1); EveryDef(15, 0x8000, 2); EveryDef(15, 0x8000, 3);
    EveryDef(12, 0x1000, 0); EveryDef(12, 0x1000, 1); EveryDef(12, 0x1000, 2); EveryDef(12, 0x1000, 3);
    EveryDef(12, 0x1000, 4);
  }

  /** The masks of `bits` are strides. */
  lemma {:induction false} Masks()
    ensures Every(4, 15) == 0x111_1111_1111_1111 && Pow2(4) == 16
    ensures Every(5, 12) == 0x84_2108_4210_8421 && Pow2(5) == 32
  {
    hide *;
    Pow2Small();
    EveryDef(4, 16, 0); EveryDef(4, 16, 1); EveryDef(4, 16, 2); EveryDef(4, 16, 3); EveryDef(4, 16, 4);
    EveryDef(4, 16, 5); EveryDef(4, 16, 6); EveryDef(4, 16, 7); EveryDef(4, 16, 8); EveryDef(4, 16, 9);
    EveryDef(4, 16, 10); EveryDef(4, 16, 11); EveryDef(4, 16, 12); EveryDef(4, 16, 13); EveryDef(4, 16, 14);
    EveryDef(5, 32, 0); EveryDef(5, 32, 1); EveryDef(5, 32, 2); EveryDef(5, 32, 3); EveryDef(5, 32, 4);
    EveryDef(5, 32, 5); EveryDef(5, 32, 6); EveryDef(5, 32, 7); EveryDef(5, 32, 8); EveryDef(5, 32, 9);
    EveryDef(5, 32, 10); EveryDef(5, 32, 11);
  }

  lemma {:induction false} Pow2Small()
    ensures Pow2(4) == 16 && Pow2(5) == 32 && Pow2(12) == 0x1000 && Pow2(14) == 0x4000 && Pow2(15) == 0x8000
  {
    assert Pow2(2) == 4 && Pow2(4) == 16;
    hide *;
    Pow2Step(4); Pow2Add(4, 4); Pow2Add(8, 4); Pow2Add(12, 2); Pow2Step(14);
  }

  /** Counting the ones of up to 12 bits. */
  lemma {:induction false} Count12(v: nat)
    requires v < 0x1000
    ensures And(v * 0x1_0010_0100_1001, 0x84_2108_4210_8421) % 0x1f == Pop(v)
  {
    hide *;
    Multipliers();
    Masks();
    Strides12(v, 0x1_0010_0100_1001, v * 0x1_0010_0100_1001);
    PopFits(v, 12);
    var q := MaskedSum(v * 0x1_0010_0100_1001, 5, 12);
  }

  /** Counting the ones of up to 14 bits. */
  lemma {:induction false} Count14(v: nat)
    requires v < 0x4000
    ensures And(v * 0x2000_4000_8001, 0x111_1111_1111_1111) % 0xf == Pop(v)
  {
    hide *;
    Multipliers();
    Masks();
    Strides15(v, 0x2000_4000_8001, v * 0x2000_4000_8001);
    Pow2Small();
    PopFits(v, 14);
    var q := MaskedSum(v * 0x2000_4000_8001, 4, 15);
  }

  lemma {:induction false} PopFits(v: nat, k: nat)
    requires v < Pow2(k)
    ensures Pop(v) <= k
  {
    if k > 0 {
      PopFits(v / 2, k - 1);
    }
  }

  lemma {:induction false} PopFields(lo: nat, hi: nat, w: nat)
    requires lo < Pow2(w)
    ensures Pop(lo + Pow2(w) * hi) == Pop(lo) + Pop(hi)
    decreases w
  {
    if w > 0 {
      var x := lo + Pow2(w) * hi;
      MulDouble(Pow2(w - 1), hi);
      assert x / 2 == lo / 2 + Pow2(w - 1) * hi && x % 2 == lo % 2;
      PopFields(lo / 2, hi, w - 1);
    }
  }

  lemma {:induction false} Low12(v: nat)
    ensures And(v, 0xfff) == v % 0x1000 && Shr(v, 12) == v / 0x1000
  {
    hide *;
    Pow2Small();
    AndLow(v, 12);
    LowIs(v, 12);
  }

  lemma {:induction false} Fields(v: nat)
    ensures And(v, 0xfff) == v % 0x1000
    ensures Shr(And(v, 0xfff000), 12) == v / 0x1000 % 0x1000
    ensures Shr(v, 24) == v / 0x1000 / 0x1000
  {
    hide *;
    Low12(v);
    Low12(v / 0x1000);
    ShrAdd(v, 12, 12);
    assert Pow2(12) == 0x1000 by { Pow2Small(); }
    AndShift(v, 0xfff, 12);
    Low12(And(v, 0xfff000));
  }

  /** `bits` counts the ones of every 32-bit value, and none of its products leaves 64 bits. */
  method Bits(v: nat) returns (c: nat)
    requires v < 0x1_0000_0000
    ensures c == Pop(v)
  {
    hide *;
    assert Pow2(12) == 0x1000 by { Pow2Small(); }
    Fields(v);
    if v < 0x4000 {
      Count14(v);
      assert v * 0x2000_4000_8001 < 0x1_0000_0000_0000_0000;
      c := And(v * 0x2000_4000_8001, 0x111_1111_1111_1111) % 0xf;
    } else if v < 0x100_0000 {
      var lo, mid := And(v, 0xfff), Shr(And(v, 0xfff000), 12);
      Count12(lo);
      Count12(mid);
      PopFields(lo, mid, 12);
      c := And(lo * 0x1_0010_0100_1001, 0x84_2108_4210_8421) % 0x1f;
      c := c + And(mid * 0x1_0010_0100_1001, 0x84_2108_4210_8421) % 0x1f;
    } else {
      var lo, mid, hi := And(v, 0xfff), Shr(And(v, 0xfff000), 12), Shr(v, 24);
      Count12(lo);
      Count12(mid);
      Count12(hi);
      PopFields(mid, hi, 12);
      PopFields(lo, mid + 0x1000 * hi, 12);
      c := And(lo * 0x1_0010_0100_1001, 0x84_2108_4210_8421) % 0x1f;
      c := c + And(mid * 0x1_0010_0100_1001, 0x84_2108_4210_8421) % 0x1f;
      c := c + And(hi * 0x1_0010_0100_1001, 0x84_2108_4210_8421) % 0x1f;
    }
  }
}
