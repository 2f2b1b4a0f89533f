/** The checksum of account addresses (`settings.hpp`). */
module Crc {
  import opened Binary
  import opened Words
  import opened Digests
  import opened Sha512
  import Arith
  import Bytes

  // ---------- division, bit by bit ----------

  /** A register of 16 bits, the most significant first. */
  type Register = r: seq<bool> | |r| == 16 witness seq(16, i => false)

  /** The terms of x^12, x^5 and 1 in a register. */
  predicate Tapped(i: nat) {
    i == 3 || i == 10 || i == 15
  }

  /** One step of the division by x^16 + x^12 + x^5 + 1. */
  function Divide(r: Register): (q: Register)
    ensures forall i :: 0 <= i < 16 ==> q[i] == ((i < 15 && r[i + 1]) != (r[0] && (i == 3 || i == 10 || i == 15)))
  {
    seq(16, i requires 0 <= i < 16 => (i < 15 && r[i + 1]) != (r[0] && Tapped(i)))
  }

  function Plus(a: seq<bool>, b: seq<bool>): (r: seq<bool>)
    requires |a| == |b|
    ensures |r| == |a| && forall i :: 0 <= i < |a| ==> r[i] == (a[i] != b[i])
  {
    seq(|a|, i requires 0 <= i < |a| => a[i] != b[i])
  }

  /** A bit of the message goes in at the top, then one step. */
  function Step(c: Register, bit: bool): Register {
    Divide(c[0 := c[0] != bit])
  }

  /** The register after a string of bits, the most significant first. */
  function Feed(c: Register, bits: seq<bool>): Register
    decreases |bits|
  {
    if bits == [] then c else Feed(Step(c, bits[0]), bits[1..])
  }

  function Divides(r: Register, n: nat): Register
    decreases n
  {
    if n == 0 then r else Divides(Divide(r), n - 1)
  }

  lemma {:induction false} FeedConcat(c: Register, s: seq<bool>, t: seq<bool>)
    ensures Feed(c, s + t) == Feed(Feed(c, s), t)
    decreases |s|
  {
    hide Divide;
    if s == [] {
      assert s + t == t;
    } else {
      assert (s + t)[1..] == s[1..] + t;
      FeedConcat(Step(c, s[0]), s[1..], t);
    }
  }

  // ---------- up to 16 bits at once ----------

  /** The bits at the top of a register. */
  function Padded(bits: seq<bool>): Register
    requires |bits| <= 16
  {
    bits + seq(16 - |bits|, i => false)
  }

  /** The step is linear in what does not reach the top. */
  lemma {:induction false} DivideSplits(r: Register, q: Register)
    requires !q[0]
    ensures Divide(Plus(r, q)) == Plus(Divide(r), q[1..] + [false])
  {
    var a, b := Divide(Plus(r, q)), Plus(Divide(r), q[1..] + [false]);
    forall i | 0 <= i < 16 ensures a[i] == b[i] {
      assert Plus(r, q)[0] == r[0];
    }
  }

  lemma {:induction false} SplitFirst(c: Register, bits: seq<bool>)
    requires 0 < |bits| <= 16
    ensures var rest := Padded(bits[1..]);
            Plus(c, Padded(bits)) == Plus(c[0 := c[0] != bits[0]], [false] + rest[..15])
    ensures Padded(bits[1..]) == Padded(bits[1..])[..15] + [false]
  {
  }

  /** Feeding up to 16 bits is adding them to the register and dividing on. */
  lemma {:induction false} FeedPadded(c: Register, bits: seq<bool>)
    requires |bits| <= 16
    ensures Feed(c, bits) == Divides(Plus(c, Padded(bits)), |bits|)
    decreases |bits|
  {
    hide Divide;
    if bits == [] {
      assert Plus(c, Padded(bits)) == c;
    } else {
      var rest := Padded(bits[1..]);
      var q: Register := [false] + rest[..15];
      FeedPadded(Step(c, bits[0]), bits[1..]);
      SplitFirst(c, bits);
      DivideSplits(c[0 := c[0] != bits[0]], q);
      assert q[1..] + [false] == rest;
    }
  }

  lemma DivideInjective(r: Register, s: Register)
    requires Divide(r) == Divide(s)
    ensures r == s
  {
    var a, b := Divide(r), Divide(s);
    assert a[15] == r[0] && b[15] == s[0];
    forall i | 0 <= i < 16 ensures r[i] == s[i] {
      if i > 0 {
        assert a[i - 1] == b[i - 1];
      }
    }
  }

  lemma {:induction false} DividesInjective(r: Register, s: Register, n: nat)
    requires Divides(r, n) == Divides(s, n)
    ensures r == s
    decreases n
  {
    if n > 0 {
      hide Divide;
      DividesInjective(Divide(r), Divide(s), n - 1);
      DivideInjective(r, s);
    }
  }

  /** The same bits keep different registers apart. */
  lemma {:induction false} FeedInjective(c: Register, d: Register, bits: seq<bool>)
    requires Feed(c, bits) == Feed(d, bits)
    ensures c == d
    decreases |bits|
  {
    if bits != [] {
      hide Divide;
      FeedInjective(Step(c, bits[0]), Step(d, bits[0]), bits[1..]);
      var c', d' := c[0 := c[0] != bits[0]], d[0 := d[0] != bits[0]];
      DivideInjective(c', d');
      assert c == c'[0 := c'[0] != bits[0]] && d == d'[0 := d'[0] != bits[0]];
    }
  }

  lemma PlusInjective(d: Register, x: seq<bool>, y: seq<bool>)
    requires |x| == |y| <= 16 && Plus(d, Padded(x)) == Plus(d, Padded(y))
    ensures x == y
  {
    forall i | 0 <= i < |x| ensures x[i] == y[i] {
      assert Padded(x)[i] == x[i] && Padded(y)[i] == y[i];
      assert Plus(d, Padded(x))[i] == Plus(d, Padded(y))[i];
    }
  }

  /** Strings that differ, but only within 16 consecutive bits, have different remainders. */
  lemma {:induction false} BurstDetected(c: Register, a: seq<bool>, b: seq<bool>, k: nat, w: nat)
    requires |a| == |b| && k + w <= |a| && w <= 16 && a != b
    requires a[..k] == b[..k] && a[k + w..] == b[k + w..]
    ensures Feed(c, a) != Feed(c, b)
  {
    hide *;
    var p, x, y, s := a[..k], a[k..k + w], b[k..k + w], a[k + w..];
    assert a == p + (x + s) && b == p + (y + s);
    FeedConcat(c, p, x + s);
    FeedConcat(c, p, y + s);
    var d := Feed(c, p);
    FeedConcat(d, x, s);
    FeedConcat(d, y, s);
    if Feed(c, a) == Feed(c, b) {
      FeedInjective(Feed(d, x), Feed(d, y), s);
      FeedPadded(d, x);
      FeedPadded(d, y);
      DividesInjective(Plus(d, Padded(x)), Plus(d, Padded(y)), w);
      PlusInjective(d, x, y);
    }
  }

  // ---------- a byte at a time ----------

  /** A number of `k` bits, the most significant first. */
  function BitsOf(n: nat, k: nat): (r: seq<bool>)
    ensures |r| == k && forall i :: 0 <= i < k ==> r[i] == Bit(n, k - 1 - i)
  {
    seq(k, i requires 0 <= i < k => Bit(n, k - 1 - i))
  }

  function AllBits(data: seq<byte>): seq<bool> {
    if data == [] then [] else BitsOf(data[0], 8) + AllBits(data[1..])
  }

  /** Four steps of the division at once. */
  function Four(r: Register): (q: Register)
    ensures forall i :: 0 <= i < 16 ==> q[i] == FourAt(r, i)
  {
    seq(16, i requires 0 <= i < 16 => FourAt(r, i))
  }

  predicate FourAt(r: Register, i: nat)
    requires i < 16
  {
    (i < 12 && r[i + 4]) != ((i < 4 && r[i]) != ((7 <= i < 11 && r[i - 7]) != (i >= 12 && r[i - 12])))
  }

  lemma {:induction false} FourIs(r: Register)
    ensures Divides(r, 4) == Four(r)
  {
    var r1 := Divide(r);
    var r2 := Divide(r1);
    var r3 := Divide(r2);
    var r4 := Divide(r3);
    assert Divides(r, 4) == r4 by { DividesStep(r, 4); DividesStep(r1, 3); DividesStep(r2, 2); DividesStep(r3, 1); }
    assert r1[0] == r[1] && r2[0] == r[2] && r3[0] == r[3] by {
      assert r1[0] == r[1] && r1[1] == r[2] && r1[2] == r[3];
      assert r2[0] == r[2] && r2[1] == r[3];
    }
    hide Divide, Divides, Four;
    forall i | 0 <= i < 16 ensures r4[i] == Four(r)[i] {
      FourPoint(r, r1, r2, r3, r4, i);
    }
  }

  lemma DividesStep(r: Register, n: nat)
    requires n > 0
    ensures Divides(r, n) == Divides(Divide(r), n - 1) && Divides(r, 0) == r
  {
  }

  lemma {:induction false} FourPoint(r: Register, r1: Register, r2: Register, r3: Register, r4: Register, i: nat)
    requires i < 16 && r1 == Divide(r) && r2 == Divide(r1) && r3 == Divide(r2) && r4 == Divide(r3)
    requires r1[0] == r[1] && r2[0] == r[2] && r3[0] == r[3]
    ensures r4[i] == FourAt(r, i)
  {
    assert r4[i] == ((i < 15 && r3[i + 1]) != (r[3] && Tapped(i)));
    assert i < 15 ==> r3[i + 1] == ((i < 14 && r2[i + 2]) != (r[2] && Tapped(i + 1)));
    assert i < 14 ==> r2[i + 2] == ((i < 13 && r1[i + 3]) != (r[1] && Tapped(i + 2)));
    assert i < 13 ==> r1[i + 3] == ((i < 12 && r[i + 4]) != (r[0] && Tapped(i + 3)));
  }

  /** The body of the loop of `crc16`. */
  function ByteStep(c: nat, b: nat): nat {
    var x := Xor(Shr(c, 8), b, 8);
    var y := Xor(x, Shr(x, 4), 8);
    Xor(Xor(Xor(Shifted(c, 8), Shifted(y, 12), 16), Shifted(y, 5), 16), y, 16)
  }

  /** The bits of `x` and of `x ^ x >> 4` there. */
  predicate X(c: nat, b: nat, q: nat) {
    q < 8 && (Bit(c, q + 8) != Bit(b, q))
  }

  predicate Y(c: nat, b: nat, q: nat) {
    q < 8 && (X(c, b, q) != X(c, b, q + 4))
  }

  lemma HighBit(x: nat, k: nat, q: nat)
    requires x < Pow2(k) && k <= q
    ensures !Bit(x, q)
  {
    Pow2Monotone(k, q);
    ShrZero(x, q);
  }

  lemma {:induction false} ByteBit(c: nat, b: nat, p: nat)
    requires p < 16
    ensures Bit(ByteStep(c, b), p)
      == ((p >= 8 && Bit(c, p - 8)) != ((p >= 12 && Y(c, b, p - 12)) != ((p >= 5 && Y(c, b, p - 5)) != Y(c, b, p))))
  {
    ByteStepIs(c, b);
    var x := Xor(Shr(c, 8), b, 8);
    var y := Xor(x, Shr(x, 4), 8);
    assert x < Pow2(8) && y < Pow2(8);
    hide *;
    var u := Xor(Shifted(c, 8), Shifted(y, 12), 16);
    var v := Xor(u, Shifted(y, 5), 16);
    XorBit(v, y, 16, p);
    XorBit(u, Shifted(y, 5), 16, p);
    XorBit(Shifted(c, 8), Shifted(y, 12), 16, p);
    ShiftedBit(c, 8, p);
    ShiftedBit(y, 12, p);
    ShiftedBit(y, 5, p);
    YBit(c, b, x, y, p);
    if p >= 5 { YBit(c, b, x, y, p - 5); }
    if p >= 12 { YBit(c, b, x, y, p - 12); }
  }

  lemma ByteStepIs(c: nat, b: nat)
    ensures var x := Xor(Shr(c, 8), b, 8); var y := Xor(x, Shr(x, 4), 8);
            ByteStep(c, b) == Xor(Xor(Xor(Shifted(c, 8), Shifted(y, 12), 16), Shifted(y, 5), 16), y, 16)
  {
    hide Xor, Shifted, Shr;
  }

  lemma {:induction false} YBit(c: nat, b: nat, x: nat, y: nat, q: nat)
    requires x == Xor(Shr(c, 8), b, 8) && y == Xor(x, Shr(x, 4), 8) && x < Pow2(8) && y < Pow2(8)
    ensures Bit(y, q) == Y(c, b, q)
  {
    XYAre(c, b, q);
    XYAre(c, b, q + 4);
    hide *;
    if q >= 8 {
      HighBit(y, 8, q);
    } else {
      XorBit(x, Shr(x, 4), 8, q);
      ShrBit(x, 4, q);
      XorBit(Shr(c, 8), b, 8, q);
      ShrBit(c, 8, q);
      if q + 4 < 8 {
        XorBit(Shr(c, 8), b, 8, q + 4);
        ShrBit(c, 8, q + 4);
      } else {
        HighBit(x, 8, q + 4);
      }
    }
  }

  lemma XYAre(c: nat, b: nat, q: nat)
    ensures X(c, b, q) == (q < 8 && (Bit(c, q + 8) != Bit(b, q)))
    ensures Y(c, b, q) == (q < 8 && (X(c, b, q) != X(c, b, q + 4)))
  {
    hide Bit;
  }

  /** The register before the byte is divided out. */
  lemma {:induction false} Loaded(c: nat, b: nat, i: nat)
    requires i < 16
    ensures Plus(BitsOf(c, 16), Padded(BitsOf(b, 8)))[i] == (if i < 8 then X(c, b, 7 - i) else Bit(c, 15 - i))
  {
    hide Bit;
  }

  /** Bits of the upper byte with those four places up. */
  predicate Z(r: Register, j: nat)
    requires j < 8
  {
    r[j] != (j >= 4 && r[j - 4])
  }

  predicate EightAt(r: Register, i: nat)
    requires i < 16
  {
    (i < 8 && r[i + 8]) != ((i < 4 && Z(r, i + 4)) != ((3 <= i < 11 && Z(r, i - 3)) != (i >= 8 && Z(r, i - 8))))
  }

  lemma {:induction false} FourTwice(r: Register, q: Register, i: nat)
    requires i < 16 && forall j :: 0 <= j < 16 ==> q[j] == FourAt(r, j)
    ensures FourAt(q, i) == EightAt(r, i)
  {
    if i < 4 {
      assert q[i + 4] == FourAt(r, i + 4) && q[i] == FourAt(r, i);
    } else if i < 7 {
      assert q[i + 4] == FourAt(r, i + 4);
    } else if i < 11 {
      assert i < 12 ==> q[i + 4] == FourAt(r, i + 4);
      assert q[i - 7] == FourAt(r, i - 7);
    } else if i < 12 {
      assert q[i + 4] == FourAt(r, i + 4);
    } else {
      assert q[i - 12] == FourAt(r, i - 12);
    }
  }

  lemma {:induction false} EightPoint(r: Register, c: nat, b: nat, i: nat)
    requires i < 16 && forall j :: 0 <= j < 16 ==> r[j] == (if j < 8 then X(c, b, 7 - j) else Bit(c, 15 - j))
    ensures EightAt(r, i) == Bit(ByteStep(c, b), 15 - i)
  {
    hide *;
    EightIs(r, i);
    ByteBit(c, b, 15 - i);
    if i < 4 { ZIs(r, c, b, i + 4); }
    if 3 <= i < 11 { ZIs(r, c, b, i - 3); }
    if i >= 8 { ZIs(r, c, b, i - 8); }
    YEnds(c, b, 15 - i);
    if i < 11 { YEnds(c, b, 10 - i); }
  }

  lemma EightIs(r: Register, i: nat)
    requires i < 16
    ensures EightAt(r, i)
      == ((i < 8 && r[i + 8]) != ((i < 4 && Z(r, i + 4)) != ((3 <= i < 11 && Z(r, i - 3)) != (i >= 8 && Z(r, i - 8)))))
  {
    hide Z;
  }

  lemma YEnds(c: nat, b: nat, q: nat)
    ensures q >= 8 ==> !Y(c, b, q)
  {
  }

  lemma ZIs(r: Register, c: nat, b: nat, j: nat)
    requires j < 8 && forall j :: 0 <= j < 16 ==> r[j] == (if j < 8 then X(c, b, 7 - j) else Bit(c, 15 - j))
    ensures Z(r, j) == Y(c, b, 7 - j)
  {
    hide Bit;
    XYAre(c, b, 7 - j + 4);
  }

  /** A byte is the eight bits of it. */
  lemma {:induction false} ByteIsBits(c: nat, b: nat)
    ensures Feed(BitsOf(c, 16), BitsOf(b, 8)) == BitsOf(ByteStep(c, b), 16)
  {
    hide *;
    var r := Plus(BitsOf(c, 16), Padded(BitsOf(b, 8)));
    forall j | 0 <= j < 16 ensures r[j] == (if j < 8 then X(c, b, 7 - j) else Bit(c, 15 - j)) {
      Loaded(c, b, j);
    }
    var q := Four(r);
    var s := Four(q);
    FeedPadded(BitsOf(c, 16), BitsOf(b, 8));
    DividesSum(r, 4, 4);
    FourIs(r);
    FourIs(q);
    forall i | 0 <= i < 16 ensures s[i] == BitsOf(ByteStep(c, b), 16)[i] {
      FourTwice(r, q, i);
      EightPoint(r, c, b, i);
    }
  }

  lemma {:induction false} DividesSum(r: Register, m: nat, n: nat)
    ensures Divides(r, m + n) == Divides(Divides(r, m), n)
    decreases m
  {
    hide Divide;
    if m > 0 {
      DividesSum(Divide(r), m - 1, n);
    }
  }

  // ---------- the code ----------

  const INITIAL: nat := 0x1D0F

  /** `crc16`: the remainder of the division, from the initial register 0x1D0F. */
  method Crc16(data: seq<byte>) returns (crc: nat)
    requires |data| < 256
    ensures crc < 0x1_0000 && BitsOf(crc, 16) == Feed(BitsOf(INITIAL, 16), AllBits(data))
    ensures data == [] ==> crc == 0x1D0F
  {
    crc := 0x1D0F;
    assert AllBits([]) == [];
    hide Feed, ByteStep, BitsOf;
    FeedNone(BitsOf(INITIAL, 16));
    for i := 0 to |data|
      invariant crc < 0x1_0000 && BitsOf(crc, 16) == Feed(BitsOf(INITIAL, 16), AllBits(data[..i]))
      invariant i == 0 ==> crc == 0x1D0F
    {
      ByteIsBits(crc, data[i]);
      AllBitsSnoc(data[..i], data[i]);
      assert data[..i + 1] == data[..i] + [data[i]];
      FeedConcat(BitsOf(INITIAL, 16), AllBits(data[..i]), BitsOf(data[i], 8));
      ByteStepFits(crc, data[i]);
      crc := ByteStep(crc, data[i]);
    }
    assert data[..|data|] == data;
  }

  lemma FeedNone(c: Register)
    ensures Feed(c, []) == c
  {
  }

  lemma ByteStepFits(c: nat, b: nat)
    ensures ByteStep(c, b) < 0x1_0000
  {
    ByteStepIs(c, b);
    hide ByteStep, Pow2, Xor;
    Pow2Values();
  }

  lemma {:induction false} AllBitsSnoc(data: seq<byte>, b: byte)
    ensures AllBits(data + [b]) == AllBits(data) + BitsOf(b, 8)
  {
    hide BitsOf;
    if data == [] {
      assert data + [b] == [b];
      assert AllBits([b]) == BitsOf(b, 8) + AllBits([]);
    } else {
      assert (data + [b])[1..] == data[1..] + [b];
      AllBitsSnoc(data[1..], b);
    }
  }

  // ---------- addresses ----------

  lemma {:induction false} BitsSplit(n: nat, k: nat)
    ensures BitsOf(n, k + 8) == BitsOf(n / 256, k) + BitsOf(n % 256, 8)
  {
    assert Shr(n, 8) == n / 256 && n / 256 == n / 256 by { ShrEight(n); }
    hide Bit, Shr;
    var a, b := BitsOf(n, k + 8), BitsOf(n / 256, k) + BitsOf(n % 256, 8);
    forall i | 0 <= i < k + 8 ensures a[i] == b[i] {
      if i < k {
        ShrBit(n, 8, k - 1 - i);
      } else {
        LowBit(n, k + 7 - i);
      }
    }
  }

  lemma ShrEight(n: nat)
    ensures Shr(n, 8) == n / 256
  {
    ShrIsDiv(n, 8);
    Pow2Values();
    hide Shr, Pow2;
  }

  lemma {:induction false} LowBit(n: nat, i: nat)
    requires i < 8
    ensures Bit(n % 256, i) == Bit(n, i)
  {
    hide *;
    var k: nat := 8;
    Pow2Values();
    LowBits(n, k, i);
  }

  lemma {:induction false} LowBits(n: nat, k: nat, i: nat)
    requires i < k
    ensures Bit(n % Pow2(k), i) == Bit(n, i)
  {
    hide *;
    Halves(n, k);
    BitStep(n, i);
    BitStep(n % Pow2(k), i);
    if i > 0 {
      LowBits(n / 2, k - 1, i - 1);
    }
  }

  lemma {:induction false} Halves(n: nat, k: nat)
    requires k > 0
    ensures (n % Pow2(k)) / 2 == (n / 2) % Pow2(k - 1) && (n % Pow2(k)) % 2 == n % 2
  {
    var p := Pow2(k - 1);
    Pow2Step(k - 1);
    hide Pow2;
    var q, r := n / (2 * p), n % (2 * p);
    assert n == (2 * p) * q + r;
    assert (2 * p) * q == 2 * (p * q);
    Arith.DivUnique(n / 2, p, q, r / 2);
  }

  /** The bits of the bytes of a number, most significant first, are its bits. */
  lemma {:induction false} BytesAreBits(n: nat, k: nat)
    ensures AllBits(Be(n, k)) == BitsOf(n, 8 * k)
  {
    hide Bit;
    if k > 0 {
      BytesAreBits(n / 256, k - 1);
      AllBitsSnoc(Be(n / 256, k - 1), n % 256);
      BitsSplit(n, 8 * (k - 1));
    }
  }

  lemma {:induction false} BitsInjective(m: nat, n: nat, k: nat)
    requires m < Pow2(k) && n < Pow2(k) && BitsOf(m, k) == BitsOf(n, k)
    ensures m == n
  {
    if k > 0 {
      Pow2Step(k - 1);
      assert BitsOf(m, k)[k - 1] == BitsOf(n, k)[k - 1];
      BitStep(m, 0);
      BitStep(n, 0);
      var x, y := BitsOf(m / 2, k - 1), BitsOf(n / 2, k - 1);
      forall i | 0 <= i < k - 1 ensures x[i] == y[i] {
        BitStep(m, k - 1 - i);
        BitStep(n, k - 1 - i);
        assert BitsOf(m, k)[i] == BitsOf(n, k)[i];
      }
      assert x == y;
      BitsInjective(m / 2, n / 2, k - 1);
    }
  }

  /** The node and account number of an address, as one number of 48 bits. */
  function Address(bank: nat, user: nat): nat {
    bank * 0x1_0000_0000 + user
  }

  /** `crc_acnt` */
  method CrcAcnt(bank: nat, user: nat) returns (crc: nat)
    requires bank < 0x1_0000 && user < 0x1_0000_0000
    ensures crc < 0x1_0000 && BitsOf(crc, 16) == Feed(BitsOf(INITIAL, 16), BitsOf(Address(bank, user), 48))
    ensures BitsOf(Address(bank, user), 48) == BitsOf(bank, 16) + BitsOf(user, 32)
  {
    hide *;
    var data := Be(bank, 2) + Be(user, 4);
    crc := Crc16(data);
    AddressBytes(bank, user);
    BytesAreBits(Address(bank, user), 6);
    BytesAreBits(bank, 2);
    BytesAreBits(user, 4);
    AllBitsConcat(Be(bank, 2), Be(user, 4));
  }

  lemma {:induction false} AllBitsConcat(a: seq<byte>, b: seq<byte>)
    ensures AllBits(a + b) == AllBits(a) + AllBits(b)
  {
    hide BitsOf;
    if a == [] {
      assert a + b == b;
    } else {
      AllBitsConcat(a[1..], b);
      assert (a + b)[1..] == a[1..] + b;
    }
  }

  lemma {:induction false} AddressBytes(bank: nat, user: nat)
    requires bank < 0x1_0000 && user < 0x1_0000_0000
    ensures Be(Address(bank, user), 6) == Be(bank, 2) + Be(user, 4)
  {
    assert Address(bank, user) == user + 0x1_0000_0000 * bank;
    FourBytes();
    hide *;
    BeConcat(user, bank, 2, 4);
  }

  lemma {:induction false} FourBytes()
    ensures Bytes.Pow256(4) == 0x1_0000_0000
  {
    assert Bytes.Pow256(2) == 0x1_0000;
  }

  /** Addresses that differ, but only within 16 consecutive bits, have different checksums. */
  lemma {:induction false} AddressesApart(a: nat, b: nat, k: nat, w: nat, crc1: nat, crc2: nat)
    requires a < 0x1_0000_0000_0000 && b < 0x1_0000_0000_0000 && a != b && k + w <= 48 && w <= 16
    requires BitsOf(a, 48)[..k] == BitsOf(b, 48)[..k] && BitsOf(a, 48)[k + w..] == BitsOf(b, 48)[k + w..]
    requires BitsOf(crc1, 16) == Feed(BitsOf(INITIAL, 16), BitsOf(a, 48))
    requires BitsOf(crc2, 16) == Feed(BitsOf(INITIAL, 16), BitsOf(b, 48))
    ensures crc1 != crc2
  {
    hide *;
    Power48();
    if BitsOf(a, 48) == BitsOf(b, 48) {
      BitsInjective(a, b, 48);
    }
    BurstDetected(BitsOf(INITIAL, 16), BitsOf(a, 48), BitsOf(b, 48), k, w);
  }

  lemma {:induction false} Power48()
    ensures Pow2(48) == 0x1_0000_0000_0000
  {
    hide Pow2;
    Pow2Values();
    Pow2Add(32, 16);
  }
}
