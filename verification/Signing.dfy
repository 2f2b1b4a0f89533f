/** Signing and opening (`ed25519.c`), with messages in one part or in two. */
module Signing {
  import opened Binary
  import opened Words
  import opened Arith
  import opened Digests
  import opened Bytes
  import opened Limbs
  import opened Groups
  import opened Modm
  import opened ModmMul
  import opened ModmBytes
  import opened Sha512
  import opened DoubleScalarMult
  import opened Window4

  datatype Unpacked<G> = Nothing | Point(value: G)

  /** The group with its base point and the encoding of its elements. */
  datatype Curve<!G> = Curve(g: Group<G>, base: G, pack: G -> seq<byte>, unpackNegative: seq<byte> -> Unpacked<G>)

  /** The base point has the order of the scalars, and encoding and decoding agree. */
  ghost predicate Faithful<G(!new)>(c: Curve<G>) {
    && Abelian(c.g) && Mul(c.g, ORDER, c.base) == c.g.zero
    && forall p: G :: |c.pack(p)| == 32 && c.unpackNegative(c.pack(p)) == Point(c.g.neg(p))
  }

  /** Digests of 64 bytes. */
  ghost predicate Wide<H(!new)>(f: Hasher<H>) {
    forall h: H :: |f.encode(h)| == 64
  }

  // ---------- the specification ----------

  /** `ed25519_extsk`: the secret key hashed, with the bits of its scalar fixed. */
  function Clamped(h: seq<byte>): seq<byte>
    requires |h| == 64
  {
    ClampBytes(h[0], h[31]);
    h[0 := And(h[0], 248)][31 := Or(And(h[31], 127), 64)]
  }

  lemma ClampBytes(a: byte, b: byte)
    ensures And(a, 248) < 256 && Or(And(b, 127), 64) < 256
  {
    AndBelow(a, 248);
    AndBelow(b, 127);
    OrBelow(And(b, 127), 64, 7);
    assert Pow2(7) == 128 by { Pow2Step(3); Pow2Step(4); Pow2Step(5); Pow2Step(6); }
  }

  lemma SmallPowers()
    ensures Pow2(3) == 8 && Pow2(5) == 32 && Pow2(6) == 64 && Pow2(7) == 128
  {
    Pow2Step(0); Pow2Step(1); Pow2Step(2); Pow2Step(3); Pow2Step(4); Pow2Step(5); Pow2Step(6);
  }

  lemma {:induction false} LowClear(a: byte)
    ensures And(a, 248) % 8 == 0
  {
    hide *;
    SmallPowers();
    AndShift(a, 31, 3);
  }

  lemma {:induction false} TopSet(x: nat)
    requires x < 128
    ensures 64 <= Or(x, 64) < 128
  {
    hide *;
    SmallPowers();
    OrBelow(x, 64, 7);
    OrBit(x, 6, 6);
    BitIs(Or(x, 64), 6);
    ShrIsDiv(Or(x, 64), 6);
  }

  lemma BitIs(x: nat, k: nat)
    ensures Bit(x, k) <==> Shr(x, k) % 2 == 1
  {
    hide Shr;
  }

  /** The secret scalar before its reduction is a multiple of 8 between 2^254 and 2^255. */
  lemma {:induction false} ClampedScalar(h: seq<byte>)
    requires |h| == 64
    ensures var s := FromLe(Clamped(h)[..32]);
      s % 8 == 0 && 2 * TWO253 <= s < 4 * TWO253
  {
    var b := Clamped(h)[..32];
    ClampBytes(h[0], h[31]);
    assert b[0] == And(h[0], 248) && b[31] == Or(And(h[31], 127), 64);
    assert FromLe(b) == b[0] + 256 * FromLe(b[1..]);
    hide *;
    LowClear(h[0]);
    AndBelow(h[31], 127);
    TopSet(And(h[31], 127));
    HighByteIs(b);
    ClampedRange(FromLe(b), Pow256(31), b[31]);
    MultipleOf8(b[0], FromLe(b[1..]));
  }

  lemma ClampedRange(s: int, p: int, top: int)
    requires p > 0 && p * top <= s < p * (top + 1) && 64 <= top < 128
    ensures 64 * p <= s < 128 * p
  {
    MulBound(p, 64, p, top);
    MulBound(p, top + 1, p, 128);
  }

  lemma MultipleOf8(low: int, rest: int)
    requires low % 8 == 0
    ensures (low + 256 * rest) % 8 == 0
  {
    var q := low / 8;
    DivUnique(low + 256 * rest, 8, q + 32 * rest, 0);
  }

  /** The low bits `x` of a byte with its top bit cleared and the one below it set. */
  lemma {:induction false} TopClamped(b: byte)
    ensures Or(And(b, 127), 64) == 64 + b % 64
  {
    hide *;
    SmallPowers();
    AndLow(b, 7);
    LowIs(b, 7);
    SetBit(And(b, 127), b);
  }

  lemma {:induction false} SetBit(x: nat, b: byte)
    requires x == b % 128
    ensures Or(x, 64) == 64 + b % 64
  {
    assert b % 128 % 64 == b % 64;
    hide Or, And, Pow2, Shr;
    SmallPowers();
    OrTop(x, 6);
  }

  /** Setting the top bit of `k + 1` bits. */
  lemma {:induction false} OrTop(x: nat, k: nat)
    requires x < Pow2(k + 1)
    ensures Or(x, Pow2(k)) == Pow2(k) + x % Pow2(k)
  {
    if k > 0 {
      OrTop(x / 2, k - 1);
      Pow2Step(k - 1);
      HalfMod(x, Pow2(k - 1));
      hide Pow2, Or;
      OrHalf(x, Pow2(k));
    }
  }

  lemma HalfMod(x: nat, p: nat)
    requires p > 0
    ensures x % (2 * p) == 2 * (x / 2 % p) + x % 2
  {
    var q, r := x / 2 / p, x / 2 % p;
    assert x / 2 == p * q + r;
    assert x == (2 * p) * q + (2 * r + x % 2);
    DivUnique(x, 2 * p, q, 2 * r + x % 2);
  }

  lemma {:induction false} LowClamped(a: byte)
    ensures And(a, 248) == a - a % 8
  {
    var h := a / 8;
    hide *;
    SmallPowers();
    AndShift(a, 31, 3);
    ShrIsDiv(a, 3);
    AndLow(Shr(a, 3), 5);
    LowSmall(Shr(a, 3), 5);
  }

  /** The first byte, the middle and the last byte of 32. */
  lemma {:induction false} ThreeParts(s: seq<byte>)
    requires |s| == 32
    ensures FromLe(s) == s[0] + 256 * FromLe(s[1..31]) + Pow256(31) * s[31]
    ensures 256 * FromLe(s[1..31]) + 256 <= Pow256(31)
  {
    assert FromLe(s[31..]) == s[31] by { assert s[31..] == [s[31]] && s[31..][1..] == []; }
    assert s == s[..31] + s[31..] && s[..31][1..] == s[1..31];
    assert FromLe(s[..31]) == s[..31][0] + 256 * FromLe(s[..31][1..]);
    assert Pow256(31) == 256 * Pow256(30);
    hide FromLe, Pow256;
    FromLeConcat(s[..31], s[31..]);
    FromLeBound(s[1..31]);
  }

  /** `x` with its low three bits and all from 2^254 on replaced. */
  lemma {:induction false} ClampedParts(p: nat, low: nat, mid: nat, top: nat)
    requires low < 256 && 256 * mid + 256 <= p && p % 8 == 0
    ensures var x := low + 256 * mid + p * top;
      (low - low % 8) + 256 * mid + p * (64 + top % 64) == 64 * p + x % (64 * p) - x % 8
  {
    var x, q, r := low + 256 * mid + p * top, top / 64, top % 64;
    assert p * top == p * (64 * q + r) == (64 * p) * q + p * r;
    MulBound(p, r, p, 63);
    DivUnique(x, 64 * p, q, low + 256 * mid + p * r);
    var e := p / 8;
    assert p == 8 * e;
    assert p * top == 8 * (e * top);
    DivUnique(x, 8, low / 8 + 32 * mid + e * top, low % 8);
    assert p * (64 + r) == 64 * p + p * r;
  }

  lemma Power31Eighth()
    ensures Pow256(31) % 8 == 0 && 2 * TWO253 == 64 * Pow256(31)
  {
    Power31();
  }

  /**
   * The secret scalar keeps the bits of the hash from the fourth to the 254th: the low three are cleared, the 255th
   * is set and the 256th cleared. The second half of the hash is kept.
   */
  lemma {:induction false} ClampedNumber(h: seq<byte>)
    requires |h| == 64
    ensures var x := FromLe(h[..32]);
      FromLe(Clamped(h)[..32]) == 2 * TWO253 + x % (2 * TWO253) - x % 8 && Clamped(h)[32..] == h[32..]
  {
    var a, b := h[..32], Clamped(h)[..32];
    ClampBytes(h[0], h[31]);
    assert b[0] == And(a[0], 248) && b[31] == Or(And(a[31], 127), 64) && b[1..31] == a[1..31];
    assert Clamped(h)[32..] == h[32..];
    hide *;
    LowClamped(a[0]);
    TopClamped(a[31]);
    ThreeParts(a);
    ThreeParts(b);
    Power31Eighth();
    ClampedParts(Pow256(31), a[0], FromLe(a[1..31]), a[31]);
  }

  lemma {:induction false} HighByteIs(s: seq<byte>)
    requires |s| == 32
    ensures Pow256(31) > 0 && TWO253 == 32 * Pow256(31)
    ensures var top: int := s[31]; Pow256(31) * top <= FromLe(s) < Pow256(31) * (top + 1)
  {
    Power31();
    assert TWO253 == 32 * Pow256(31);
    assert FromLe(s[31..]) == s[31] by { assert s[31..] == [s[31]] && s[31..][1..] == []; }
    assert s == s[..31] + s[31..];
    hide FromLe, Pow256, TWO253;
    FromLeConcat(s[..31], s[31..]);
    FromLeBound(s[..31]);
  }

  lemma {:induction false} AndBelow(a: nat, b: nat)
    ensures And(a, b) <= a && And(a, b) <= b
    decreases a
  {
    if a > 0 && b > 0 {
      AndBelow(a / 2, b / 2);
    }
  }

  /** A string of bytes as a scalar. */
  function ScalarOf(bytes: seq<byte>): (s: nat)
    ensures s < ORDER
  {
    FromLe(bytes) % ORDER
  }

  function SecretScalar<H>(f: Hasher<H>, sk: seq<byte>): nat
    requires |Hashed(f, sk)| == 64
  {
    ScalarOf(Clamped(Hashed(f, sk))[..32])
  }

  function PublicKeyOf<G, H>(c: Curve<G>, f: Hasher<H>, sk: seq<byte>): seq<byte>
    requires |Hashed(f, sk)| == 64
  {
    c.pack(Mul(c.g, SecretScalar(f, sk), c.base))
  }

  function Nonce<H>(f: Hasher<H>, sk: seq<byte>, m: seq<byte>): nat
    requires |Hashed(f, sk)| == 64
  {
    ScalarOf(Hashed(f, Clamped(Hashed(f, sk))[32..] + m))
  }

  /** The signature of section 5.1.6 of RFC 8032. */
  function Signature<G, H>(c: Curve<G>, f: Hasher<H>, sk: seq<byte>, pk: seq<byte>, m: seq<byte>): seq<byte>
    requires |Hashed(f, sk)| == 64
  {
    var r := Nonce(f, sk, m);
    var first := c.pack(Mul(c.g, r, c.base));
    var h := ScalarOf(Hashed(f, first + pk + m));
    first + Le((h * SecretScalar(f, sk) + r) % ORDER, 32)
  }

  /** The check the code makes: a response below 2^253, reduced, and the equation of section 5.1.7 of RFC 8032. */
  predicate Verifies<G(==), H>(c: Curve<G>, f: Hasher<H>, pk: seq<byte>, m: seq<byte>, rs: seq<byte>)
    requires |rs| == 64
  {
    var h := ScalarOf(Hashed(f, rs[..32] + pk + m));
    var a := c.unpackNegative(pk);
    && And(rs[63], 224) == 0 && a.Point?
    && c.pack(Combined(c.g, h, a.value, ScalarOf(rs[32..]), c.base)) == rs[..32]
  }

  // ---------- what the code accepts beyond the standard ----------

  const TWO253: nat := 0x2000000000000000_0000000000000000_0000000000000000_0000000000000000

  /** The check of section 5.1.7 of RFC 8032, which refuses a response that is not reduced. */
  predicate RfcVerifies<G(==), H>(c: Curve<G>, f: Hasher<H>, pk: seq<byte>, m: seq<byte>, rs: seq<byte>)
    requires |rs| == 64
  {
    Verifies(c, f, pk, m, rs) && FromLe(rs[32..]) < ORDER
  }

  /** The signature with another response. */
  function Answering(rs: seq<byte>, s: nat): (r: seq<byte>)
    requires |rs| == 64
    ensures |r| == 64 && r[..32] == rs[..32] && r[32..] == Le(s, 32)
  {
    rs[..32] + Le(s, 32)
  }

  lemma {:induction false} HighBits(b: byte)
    ensures And(b, 224) == 0 <==> b < 32
  {
    hide *;
    SmallPowers();
    var h := Shr(b, 5);
    AndShift(b, 7, 5);
    ShrIsDiv(b, 5);
    assert h < 8;
    AndLow(h, 3);
    LowSmall(h, 3);
  }

  lemma {:induction false} HighByte(s: seq<byte>)
    requires |s| == 32
    ensures s[31] < 32 <==> FromLe(s) < TWO253
  {
    hide FromLe, Pow256, TWO253;
    HighByteIs(s);
    var p, b: int := Pow256(31), s[31];
    if b < 32 {
      MulBound(p, b + 1, p, 32);
    } else {
      MulBound(p, 32, p, b);
    }
  }

  /** The test of the top bits refuses exactly the responses from 2^253 on. */
  lemma {:induction false} TopBitsIff(rs: seq<byte>)
    requires |rs| == 64
    ensures And(rs[63], 224) == 0 <==> FromLe(rs[32..]) < TWO253
  {
    hide And, FromLe, TWO253;
    HighBits(rs[63]);
    HighByte(rs[32..]);
  }

  lemma VerifiesIs<G, H>(c: Curve<G>, f: Hasher<H>, pk: seq<byte>, m: seq<byte>, rs: seq<byte>)
    requires |rs| == 64
    ensures Verifies(c, f, pk, m, rs) <==>
      && And(rs[63], 224) == 0 && c.unpackNegative(pk).Point?
      && c.pack(Combined(c.g, ScalarOf(Hashed(f, rs[..32] + pk + m)), c.unpackNegative(pk).value,
                         ScalarOf(rs[32..]), c.base)) == rs[..32]
  {
    hide Hashed, ScalarOf, Combined, And;
  }

  /** Responses that are equal modulo the order are accepted alike. */
  lemma {:induction false} SameResponse<G, H>(c: Curve<G>, f: Hasher<H>, pk: seq<byte>, m: seq<byte>, rs: seq<byte>,
                                              s: nat)
    requires |rs| == 64 && s < TWO253 && s % ORDER == FromLe(rs[32..]) % ORDER
    ensures FromLe(Answering(rs, s)[32..]) == s
    ensures Verifies(c, f, pk, m, rs) <==> FromLe(rs[32..]) < TWO253 && Verifies(c, f, pk, m, Answering(rs, s))
  {
    var rs' := Answering(rs, s);
    assert ScalarOf(rs[32..]) == FromLe(rs[32..]) % ORDER && ScalarOf(rs'[32..]) == FromLe(rs'[32..]) % ORDER;
    Power32();
    hide *;
    LeRoundTrip(s, 32);
    TopBitsIff(rs);
    TopBitsIff(rs');
    VerifiesIs(c, f, pk, m, rs);
    VerifiesIs(c, f, pk, m, rs');
  }

  lemma {:induction false} Power32()
    ensures TWO253 < Pow256(32)
  {
    Power31();
    assert Pow256(32) == 256 * Pow256(31);
  }

  /** The code accepts what the standard accepts with the response reduced, as long as it is below 2^253. */
  lemma {:induction false} AcceptsIff<G, H>(c: Curve<G>, f: Hasher<H>, pk: seq<byte>, m: seq<byte>, rs: seq<byte>)
    requires |rs| == 64
    ensures var s := FromLe(rs[32..]);
      Verifies(c, f, pk, m, rs) <==> s < TWO253 && RfcVerifies(c, f, pk, m, Answering(rs, s % ORDER))
  {
    var s := FromLe(rs[32..]);
    Reduced(s);
    hide Verifies, ORDER, TWO253, FromLe;
    SameResponse(c, f, pk, m, rs, s % ORDER);
  }

  lemma Reduced(s: nat)
    ensures s % ORDER < ORDER < TWO253 && (s % ORDER) % ORDER == s % ORDER
  {
    hide ORDER;
    assert 0 < ORDER < TWO253 by { OrderRange(); }
    DivUnique(s % ORDER, ORDER, 0, s % ORDER);
  }

  lemma OrderRange()
    ensures 0 < ORDER < TWO253
  {
  }

  /** An accepted signature whose response leaves room for the order has a second form, which the standard refuses. */
  lemma {:induction false} SecondForm<G, H>(c: Curve<G>, f: Hasher<H>, pk: seq<byte>, m: seq<byte>, rs: seq<byte>)
    requires |rs| == 64 && Verifies(c, f, pk, m, rs) && FromLe(rs[32..]) + ORDER < TWO253
    ensures var rs' := Answering(rs, FromLe(rs[32..]) + ORDER);
      rs' != rs && Verifies(c, f, pk, m, rs') && !RfcVerifies(c, f, pk, m, rs')
  {
    var s := FromLe(rs[32..]);
    OrderRange();
    hide Verifies, ORDER, TWO253, FromLe;
    DivUnique(s + ORDER, ORDER, s / ORDER + 1, s % ORDER);
    SameResponse(c, f, pk, m, rs, s + ORDER);
  }

  // ---------- completeness ----------

  lemma {:induction false} OrderVanishes<G(!new)>(g: Group<G>, order: int, base: G, n: int, q: int)
    requires Abelian(g) && Mul(g, order, base) == g.zero
    ensures Mul(g, n + q * order, base) == Mul(g, n, base)
  {
    hide *;
    MulMul(g, q, order, base);
    MulOfZero(g, q);
    MulAdd(g, n, q * order, base);
    Assoc(g, Mul(g, n, base), base, base);
  }

  lemma {:induction false} MulOfZero<G(!new)>(g: Group<G>, n: int)
    requires Abelian(g)
    ensures Mul(g, n, g.zero) == g.zero
  {
    hide *;
    Assoc(g, g.zero, g.zero, g.zero);
    MulPlus(g, n, g.zero, g.zero);
    var x := Mul(g, n, g.zero);
    Assoc(g, x, x, x);
    Cancel(g, x, g.zero, x);
  }

  /** `[h](-[a]B) + [s]B = [r]B` for `s = h a + r` modulo the order. */
  lemma {:induction false} Closes<G(!new)>(c: Curve<G>, h: nat, a: nat, r: nat, s: nat)
    requires Faithful(c) && s == (h * a + r) % ORDER
    ensures Combined(c.g, h, c.g.neg(Mul(c.g, a, c.base)), s, c.base) == Mul(c.g, r, c.base)
  {
    hide *;
    FaithfulIs(c);
    var q := Balance(h, a, r, s);
    CombinedBase(c.g, c.base, h, a, s);
    OrderVanishes(c.g, ORDER, c.base, r, q);
  }

  lemma {:induction false} CombinedBase<G(!new)>(g: Group<G>, base: G, h: nat, a: nat, s: nat)
    requires Abelian(g)
    ensures Combined(g, h, g.neg(Mul(g, a, base)), s, base) == Mul(g, h * -(a as int) + s, base)
  {
    hide *;
    CombinedIs(g, h, g.neg(Mul(g, a, base)), s, base);
    MulNeg(g, a, base);
    MulMul(g, h, -(a as int), base);
    MulAdd(g, h * -(a as int), s, base);
  }

  lemma {:induction false} Balance(h: nat, a: nat, r: nat, s: nat) returns (q: int)
    requires s == (h * a + r) % ORDER
    ensures h * -(a as int) + s == r + q * ORDER
  {
    var n, m := h * a + r, ORDER;
    var e := n / m;
    assert n == m * e + s;
    q := -e;
    hide ORDER;
    Opposites(h, a, m, e);
  }

  lemma Opposites(h: int, a: int, m: int, e: int)
    ensures h * -a == -(h * a) && -e * m == -(m * e)
  {
  }

  lemma FaithfulIs<G(!new)>(c: Curve<G>)
    requires Faithful(c)
    ensures Abelian(c.g) && Mul(c.g, ORDER, c.base) == c.g.zero
  {
  }

  lemma {:induction false} TopByte(s: nat)
    requires s < ORDER
    ensures Le(s, 32)[31] < 32
  {
    LeAt(s, 32, 31);
    var q := s / Pow256(31);
    Power31();
    assert s == Pow256(31) * q + s % Pow256(31);
    assert ORDER < 32 * Pow256(31);
    hide Le, Pow256, ORDER;
    DivLess(s, Pow256(31), 32);
  }

  lemma {:induction false} TopBitsClear(b: nat)
    requires b < 32
    ensures And(b, 224) == 0
  {
    assert Pow2(5) == 32 by { Pow2Step(3); Pow2Step(4); }
    hide And, Pow2;
    AndShift(b, 7, 5);
    ShrZero(b, 5);
    AndNone(7);
  }

  lemma WideIs<H(!new)>(f: Hasher<H>, m: seq<byte>)
    requires Wide(f)
    ensures |Hashed(f, m)| == 64
  {
    hide Fold, Padding;
  }

  lemma PackIs<G(!new)>(c: Curve<G>, p: G)
    requires Faithful(c)
    ensures |c.pack(p)| == 32 && c.unpackNegative(c.pack(p)) == Point(c.g.neg(p))
  {
    hide Abelian, Mul, ORDER;
  }

  lemma {:induction false} ScalarRoundTrip(s: nat)
    requires s < ORDER
    ensures ScalarOf(Le(s, 32)) == s
  {
    Power31();
    assert Pow256(32) == 256 * Pow256(31);
    assert ORDER < 256 * Pow256(31);
    DivUnique(s, ORDER, 0, s);
    hide Le, FromLe, Pow256, ORDER;
    LeRoundTrip(s, 32);
  }

  lemma SignatureIs<G, H>(c: Curve<G>, f: Hasher<H>, sk: seq<byte>, pk: seq<byte>, m: seq<byte>)
    requires |Hashed(f, sk)| == 64
    ensures var r := Nonce(f, sk, m); var first := c.pack(Mul(c.g, r, c.base));
            var h := ScalarOf(Hashed(f, first + pk + m));
            Signature(c, f, sk, pk, m) == first + Le((h * SecretScalar(f, sk) + r) % ORDER, 32)
  {
    hide Hashed, Nonce, SecretScalar, ScalarOf, Le, Mul, ORDER;
  }

  lemma {:induction false} PartsVerify<G(!new), H>(c: Curve<G>, f: Hasher<H>, pk: seq<byte>, m: seq<byte>, h: nat,
                                                   a: nat, r: nat, s: nat, first: seq<byte>)
    requires Faithful(c) && pk == c.pack(Mul(c.g, a, c.base)) && first == c.pack(Mul(c.g, r, c.base))
    requires h == ScalarOf(Hashed(f, first + pk + m)) && s == (h * a + r) % ORDER
    ensures |first + Le(s, 32)| == 64 && Verifies(c, f, pk, m, first + Le(s, 32))
  {
    hide *;
    PackIs(c, Mul(c.g, a, c.base));
    PackIs(c, Mul(c.g, r, c.base));
    Closes(c, h, a, r, s);
    ReducedIs(h * a + r);
    var rs := first + Le(s, 32);
    assert rs[..32] == first && rs[32..] == Le(s, 32) && rs[63] == Le(s, 32)[31];
    TopByte(s);
    TopBitsClear(rs[63]);
    ScalarRoundTrip(s);
    VerifiesIs(c, f, pk, m, rs);
  }

  lemma PublicKeyIs<G, H>(c: Curve<G>, f: Hasher<H>, sk: seq<byte>)
    requires |Hashed(f, sk)| == 64
    ensures PublicKeyOf(c, f, sk) == c.pack(Mul(c.g, SecretScalar(f, sk), c.base))
  {
    hide Hashed, SecretScalar, Mul;
  }

  /** Every signature made with a secret key is accepted under its public key. */
  lemma {:induction false} SignedVerifies<G(!new), H(!new)>(c: Curve<G>, f: Hasher<H>, sk: seq<byte>, m: seq<byte>)
    requires Faithful(c) && Wide(f)
    ensures |Hashed(f, sk)| == 64
    ensures var pk := PublicKeyOf(c, f, sk); var rs := Signature(c, f, sk, pk, m);
            |rs| == 64 && Verifies(c, f, pk, m, rs)
  {
    hide *;
    WideIs(f, sk);
    var a, r, pk := SecretScalar(f, sk), Nonce(f, sk, m), PublicKeyOf(c, f, sk);
    PublicKeyIs(c, f, sk);
    SignatureIs(c, f, sk, pk, m);
    var first := c.pack(Mul(c.g, r, c.base));
    var h := ScalarOf(Hashed(f, first + pk + m));
    PartsVerify(c, f, pk, m, h, a, r, (h * a + r) % ORDER, first);
  }

  lemma ReducedIs(n: nat)
    ensures 0 <= n % ORDER < ORDER
  {
  }

  // ---------- the steps of the standard ----------

  lemma {:induction false} ModProduct(h: nat, a: nat, r: nat, m: nat)
    requires m > 0
    ensures ((h % m) * (a % m) + r % m) % m == (h * a + r) % m
  {
    SplitMod(h, m);
    SplitMod(a, m);
    SplitMod(r, m);
    SameRemainder(h % m, a % m, r % m, m, h / m, a / m, r / m);
  }

  lemma {:induction false} SameRemainder(h: nat, a: nat, r: nat, m: nat, q: nat, e: nat, k: nat)
    requires m > 0
    ensures (h * a + r) % m == ((h + q * m) * (a + e * m) + (r + k * m)) % m
  {
    var low, t := h * a + r, q * (a + e * m) + h * e + k;
    Expanded3(h, a, r, m, q, e, k);
    Gather(m, t, low);
    DivUnique(low + m * t, m, t + low / m, low % m);
  }

  lemma Expanded3(h: int, a: int, r: int, m: int, q: int, e: int, k: int)
    ensures (h + q * m) * (a + e * m) + (r + k * m) == h * a + r + m * (q * (a + e * m) + h * e + k)
  {
    var b := a + e * m;
    assert (h + q * m) * b == m * (q * b) + h * b;
    assert h * b == m * (h * e) + h * a;
  }

  lemma Gather(m: int, t: int, low: int)
    requires m > 0
    ensures low + m * t == m * (t + low / m) + low % m
  {
    assert low == m * (low / m) + low % m;
  }

  /** The secret scalar of a key, from the first half of its hash. */
  function KeyNumber<H>(f: Hasher<H>, sk: seq<byte>): int
    requires |Hashed(f, sk)| == 64
  {
    var x := FromLe(Hashed(f, sk)[..32]);
    2 * TWO253 + x % (2 * TWO253) - x % 8
  }

  /** The number the nonce is reduced from: the second half of the hash of the key, and the message. */
  function NonceNumber<H>(f: Hasher<H>, sk: seq<byte>, m: seq<byte>): nat
    requires |Hashed(f, sk)| == 64
  {
    FromLe(Hashed(f, Hashed(f, sk)[32..] + m))
  }

  lemma {:induction false} NumbersAre<H>(f: Hasher<H>, sk: seq<byte>, m: seq<byte>)
    requires |Hashed(f, sk)| == 64
    ensures KeyNumber(f, sk) >= 0 && SecretScalar(f, sk) == KeyNumber(f, sk) % ORDER
    ensures Nonce(f, sk, m) == NonceNumber(f, sk, m) % ORDER
  {
    ClampedNumber(Hashed(f, sk));
    hide Hashed, Clamped, FromLe, TWO253, ORDER;
  }

  /** A signature, step by step as section 5.1.6 of RFC 8032 has it, with numbers that are not reduced on the way. */
  lemma {:induction false} SignatureSteps<G(!new), H(!new)>(c: Curve<G>, f: Hasher<H>, sk: seq<byte>, pk: seq<byte>,
                                                            m: seq<byte>)
    requires Faithful(c) && Wide(f)
    ensures |Hashed(f, sk)| == 64
    ensures var rs := Signature(c, f, sk, pk, m);
      var a, r := KeyNumber(f, sk), NonceNumber(f, sk, m);
      && |rs| == 64 && a >= 0 && rs[..32] == c.pack(Mul(c.g, r, c.base))
      && FromLe(rs[32..]) == (FromLe(Hashed(f, rs[..32] + pk + m)) * a + r) % ORDER
  {
    hide *;
    WideIs(f, sk);
    var a, r := KeyNumber(f, sk), NonceNumber(f, sk, m);
    NumbersAre(f, sk, m);
    FaithfulIs(c);
    SignatureIs(c, f, sk, pk, m);
    OrderRange();
    var n := Nonce(f, sk, m);
    var first := c.pack(Mul(c.g, n, c.base));
    PackIs(c, Mul(c.g, n, c.base));
    SplitMod(r, ORDER);
    OrderVanishes(c.g, ORDER, c.base, n, r / ORDER);
    var k := FromLe(Hashed(f, first + pk + m));
    ScalarIs(Hashed(f, first + pk + m));
    ModProduct(k, a, r, ORDER);
    var s := (k * a + r) % ORDER;
    ReducedIs(k * a + r);
    Power32();
    LeRoundTrip(s, 32);
    var rs := Signature(c, f, sk, pk, m);
    assert rs == first + Le(s, 32);
    assert rs[..32] == first && rs[32..] == Le(s, 32);
  }

  lemma SplitMod(r: nat, m: nat)
    requires m > 0
    ensures r % m + (r / m) * m == r
  {
  }

  /** The equation the code decides: `S` is taken as it stands, and the hash modulo the order. */
  lemma {:induction false} AcceptsEquation<G(!new), H>(c: Curve<G>, f: Hasher<H>, pk: seq<byte>, m: seq<byte>,
                                                      rs: seq<byte>)
    requires Faithful(c) && |rs| == 64
    ensures var s, k := FromLe(rs[32..]), FromLe(Hashed(f, rs[..32] + pk + m)) % ORDER;
      Verifies(c, f, pk, m, rs) <==>
        && s < TWO253 && c.unpackNegative(pk).Point?
        && c.pack(c.g.add(Mul(c.g, k, c.unpackNegative(pk).value), Mul(c.g, s, c.base))) == rs[..32]
  {
    hide *;
    FaithfulIs(c);
    OrderRange();
    TopBitsIff(rs);
    VerifiesIs(c, f, pk, m, rs);
    var s := FromLe(rs[32..]);
    ScalarIs(rs[32..]);
    ScalarIs(Hashed(f, rs[..32] + pk + m));
    SplitMod(s, ORDER);
    OrderVanishes(c.g, ORDER, c.base, s % ORDER, s / ORDER);
    if c.unpackNegative(pk).Point? {
      CombinedIs(c.g, ScalarOf(Hashed(f, rs[..32] + pk + m)), c.unpackNegative(pk).value, s % ORDER, c.base);
    }
  }

  // ---------- the code ----------

  /** `init`, one `update` for each piece, and `final`. */
  method HashPieces<H>(f: Hasher<H>, pieces: seq<seq<byte>>) returns (hash: seq<byte>)
    ensures hash == Hashed(f, Flat(pieces))
  {
    var ctx := new Stream(f);
    FlatNone();
    hide *;
    for i := 0 to |pieces|
      invariant ctx.Valid() && fresh(ctx) && fresh(ctx.buffer) && ctx.f == f
      invariant ctx.message == Flat(pieces[..i])
    {
      ctx.Update(pieces[i]);
      assert pieces[..i + 1] == pieces[..i] + [pieces[i]];
      FlatConcat(pieces[..i], [pieces[i]]);
      FlatOne(pieces[i]);
    }
    assert pieces[..|pieces|] == pieces;
    hash := ctx.Final();
  }

  lemma FlatNone()
    ensures Flat([]) == []
  {
  }

  /** A reduced scalar fits the digit recodings and the multiplication. */
  lemma {:induction false} ReducedScalar(s: seq<int>)
    requires Normal(s) && Val(s) < ORDER
    ensures |s| == 5 && 0 <= s[4] < 0x1_0000_0000 && Val(s) < Pow2(255) && 0 <= Val(s)
  {
    NormalVal(s);
    hide Val, Pow2;
    Power255();
  }

  lemma {:induction false} Power255()
    ensures ORDER < Pow2(255)
  {
    hide Pow2;
    Word64();
    Pow2Values();
    Pow2Add(64, 64); Pow2Add(128, 64); Pow2Add(192, 32); Pow2Add(224, 31);
  }

  function AsScalar(s: seq<u64>): (t: Scalar)
    requires Normal(s)
    ensures t == s
  {
    s
  }

  /** `expand256_modm` into a fresh scalar. */
  method Expanded(bytes: seq<byte>) returns (s: array<u64>)
    requires |bytes| <= 64
    ensures fresh(s) && s.Length == 5 && Normal(s[..]) && Val(s[..]) == ScalarOf(bytes) < ORDER
  {
    hide *;
    s := new u64[5];
    Expand256(s, bytes);
    ScalarIs(bytes);
  }

  lemma ScalarIs(bytes: seq<byte>)
    ensures ScalarOf(bytes) == FromLe(bytes) % ORDER < ORDER
  {
  }

  /** `[s]B`, packed. */
  method PackedMultiple<G(!new)>(c: Curve<G>, table: seq<G>, s: array<u64>) returns (packed: seq<byte>)
    requires Faithful(c) && BaseTable(c.g, table, c.base) && s.Length == 5 && Normal(s[..]) && Val(s[..]) < ORDER
    ensures packed == c.pack(Mul(c.g, Val(s[..]), c.base))
  {
    hide *;
    FaithfulIs(c);
    ReducedScalar(s[..]);
    var p := ScalarMultBase(c.g, table, AsScalar(s[..]), c.base);
    packed := c.pack(p);
  }

  /** `ed25519_publickey` */
  method PublicKey<G(!new), H(!new)>(c: Curve<G>, f: Hasher<H>, table: seq<G>, sk: seq<byte>) returns (pk: seq<byte>)
    requires Faithful(c) && Wide(f) && BaseTable(c.g, table, c.base)
    ensures |Hashed(f, sk)| == 64 && pk == PublicKeyOf(c, f, sk)
  {
    hide *;
    WideIs(f, sk);
    var ext := ExtendedKey(f, sk);
    var a := Expanded(ext[..32]);
    pk := PackedMultiple(c, table, a);
    PublicKeyIs(c, f, sk);
    SecretIs(f, sk);
  }

  /** `ed25519_extsk` */
  method ExtendedKey<H(!new)>(f: Hasher<H>, sk: seq<byte>) returns (ext: seq<byte>)
    requires |Hashed(f, sk)| == 64
    ensures ext == Clamped(Hashed(f, sk)) && |ext| == 64 && ext[32..] == Hashed(f, sk)[32..]
    ensures var x := FromLe(Hashed(f, sk)[..32]); FromLe(ext[..32]) == 2 * TWO253 + x % (2 * TWO253) - x % 8
  {
    ClampedNumber(Hashed(f, sk));
    hide Hashed, Flat, FromLe, TWO253;
    var h := HashPieces(f, [sk]);
    FlatOne(sk);
    ext := Clamped(h);
  }

  lemma SecretIs<H>(f: Hasher<H>, sk: seq<byte>)
    requires |Hashed(f, sk)| == 64
    ensures SecretScalar(f, sk) == ScalarOf(Clamped(Hashed(f, sk))[..32])
  {
    hide Hashed, Clamped, ScalarOf;
  }

  lemma NonceIs<H>(f: Hasher<H>, sk: seq<byte>, m: seq<byte>)
    requires |Hashed(f, sk)| == 64
    ensures Nonce(f, sk, m) == ScalarOf(Hashed(f, Clamped(Hashed(f, sk))[32..] + m))
  {
    hide Hashed, Clamped, ScalarOf;
  }

  lemma FlatCons(x: seq<byte>, pieces: seq<seq<byte>>)
    ensures Flat([x] + pieces) == x + Flat(pieces)
  {
    assert ([x] + pieces)[1..] == pieces;
  }

  /** `(h a + r) mod L`, in bytes. */
  method Response(h: array<u64>, a: array<u64>, r: array<u64>) returns (bytes: seq<byte>)
    requires h.Length == 5 && a.Length == 5 && r.Length == 5 && h != a && h != r
    requires Normal(h[..]) && Normal(a[..]) && Normal(r[..])
    requires Val(h[..]) < ORDER && Val(a[..]) < ORDER && Val(r[..]) < ORDER
    modifies h
    ensures bytes == Le(old(Val(h[..]) * Val(a[..]) + Val(r[..])) % ORDER, 32)
  {
    hide *;
    ghost var x, y, z := Val(h[..]), Val(a[..]), Val(r[..]);
    ReducedScalar(h[..]);
    ReducedScalar(a[..]);
    ReducedScalar(r[..]);
    MulNonneg(x, y);
    Mul256(h, h, a);
    ReducedIs(x * y);
    Add256(h, h, r);
    ModSum(x * y, z);
    ReducedIs(x * y + z);
    ReducedScalar(h[..]);
    bytes := Contract256(h[..]);
  }

  lemma {:induction false} ModSum(n: nat, z: nat)
    ensures (n % ORDER + z) % ORDER == (n + z) % ORDER
  {
    var m := ORDER;
    var q, r := n / m, n % m;
    var e, d := (r + z) / m, (r + z) % m;
    assert n == m * q + r && r + z == m * e + d;
    hide ORDER;
    assert m * q + m * e == m * (q + e) by { Distribute(m, q, e); }
    DivUnique(n + z, m, q + e, d);
  }

  lemma Distribute(m: int, q: int, e: int)
    ensures m * q + m * e == m * (q + e)
  {
  }

  /** The steps of `ed25519_sign` and `ed25519_sign2`: each piece of the message is one `update`. */
  method SignPieces<G(!new), H(!new)>(c: Curve<G>, f: Hasher<H>, table: seq<G>, pieces: seq<seq<byte>>,
                                      sk: seq<byte>, pk: seq<byte>) returns (rs: seq<byte>)
    requires Faithful(c) && Wide(f) && BaseTable(c.g, table, c.base)
    ensures |Hashed(f, sk)| == 64 && rs == Signature(c, f, sk, pk, Flat(pieces))
  {
    hide *;
    ghost var m := Flat(pieces);
    WideIs(f, sk);
    var ext := ExtendedKey(f, sk);
    var hashr := HashPieces(f, [ext[32..]] + pieces);
    FlatCons(ext[32..], pieces);
    WideIs(f, ext[32..] + m);
    var r := Expanded(hashr);
    NonceIs(f, sk, m);
    var first := PackedMultiple(c, table, r);
    var hram := HashPieces(f, [first] + ([pk] + pieces));
    FlatCons(first, [pk] + pieces);
    FlatCons(pk, pieces);
    assert first + (pk + m) == first + pk + m;
    WideIs(f, first + pk + m);
    var s := Expanded(hram);
    var a := Expanded(ext[..32]);
    SecretIs(f, sk);
    var tail := Response(s, a, r);
    rs := first + tail;
    SignatureIs(c, f, sk, pk, m);
  }

  /** `ed25519_sign` */
  method Sign<G(!new), H(!new)>(c: Curve<G>, f: Hasher<H>, table: seq<G>, m: seq<byte>, sk: seq<byte>, pk: seq<byte>)
    returns (rs: seq<byte>)
    requires Faithful(c) && Wide(f) && BaseTable(c.g, table, c.base)
    ensures |Hashed(f, sk)| == 64 && rs == Signature(c, f, sk, pk, m)
  {
    hide *;
    rs := SignPieces(c, f, table, [m], sk, pk);
    FlatOne(m);
  }

  /** `ed25519_sign2`: the signature of the two parts joined. */
  method Sign2<G(!new), H(!new)>(c: Curve<G>, f: Hasher<H>, table: seq<G>, m: seq<byte>, m2: seq<byte>,
                                 sk: seq<byte>, pk: seq<byte>) returns (rs: seq<byte>)
    requires Faithful(c) && Wide(f) && BaseTable(c.g, table, c.base)
    ensures |Hashed(f, sk)| == 64 && rs == Signature(c, f, sk, pk, m + m2)
  {
    hide *;
    rs := SignPieces(c, f, table, [m, m2], sk, pk);
    FlatTwo(m, m2);
  }

  lemma FlatTwo(m: seq<byte>, m2: seq<byte>)
    ensures Flat([m, m2]) == m + m2
  {
    FlatCons(m, [m2]);
    FlatOne(m2);
    assert [m] + [m2] == [m, m2];
    hide Flat;
  }

  /** The steps of `ed25519_sign_open` and `ed25519_sign_open2`. */
  method OpenPieces<G(!new), H(!new)>(c: Curve<G>, f: Hasher<H>, multiples: seq<G>, pieces: seq<seq<byte>>,
                                      pk: seq<byte>, rs: seq<byte>) returns (ok: bool)
    requires Faithful(c) && Wide(f) && |multiples| == 32 && OddMultiples(c.g, multiples, c.base) && |rs| == 64
    ensures ok == Verifies(c, f, pk, Flat(pieces), rs)
  {
    hide *;
    ghost var m := Flat(pieces);
    VerifiesIs(c, f, pk, m, rs);
    if And(rs[63], 224) != 0 {
      return false;
    }
    var a := c.unpackNegative(pk);
    if a.Nothing? {
      return false;
    }
    var hash := HashPieces(f, [rs[..32]] + ([pk] + pieces));
    FlatCons(rs[..32], [pk] + pieces);
    FlatCons(pk, pieces);
    assert rs[..32] + (pk + m) == rs[..32] + pk + m;
    WideIs(f, rs[..32] + pk + m);
    var hram := Expanded(hash);
    var s := Expanded(rs[32..]);
    ReducedScalar(hram[..]);
    ReducedScalar(s[..]);
    FaithfulIs(c);
    var r := DoubleScalarMult.DoubleScalarMult(c.g, a.value, AsScalar(hram[..]), AsScalar(s[..]), multiples, c.base);
    ok := c.pack(r) == rs[..32];
  }

  /** `ed25519_sign_open` */
  method Open<G(!new), H(!new)>(c: Curve<G>, f: Hasher<H>, multiples: seq<G>, m: seq<byte>, pk: seq<byte>,
                                rs: seq<byte>)
    returns (ok: bool)
    requires Faithful(c) && Wide(f) && |multiples| == 32 && OddMultiples(c.g, multiples, c.base) && |rs| == 64
    ensures ok == Verifies(c, f, pk, m, rs)
  {
    hide *;
    ok := OpenPieces(c, f, multiples, [m], pk, rs);
    FlatOne(m);
  }

  /** `ed25519_sign_open2`: the check of the two parts joined. */
  method Open2<G(!new), H(!new)>(c: Curve<G>, f: Hasher<H>, multiples: seq<G>, m: seq<byte>, m2: seq<byte>,
                                 pk: seq<byte>, rs: seq<byte>) returns (ok: bool)
    requires Faithful(c) && Wide(f) && |multiples| == 32 && OddMultiples(c.g, multiples, c.base) && |rs| == 64
    ensures ok == Verifies(c, f, pk, m + m2, rs)
  {
    hide *;
    ok := OpenPieces(c, f, multiples, [m, m2], pk, rs);
    FlatTwo(m, m2);
  }
}
