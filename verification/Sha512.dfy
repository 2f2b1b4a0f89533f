/** The streaming SHA-512 of `ed25519-hash.h`, over any compression function. */
module Sha512 {
  import opened Arith
  import opened Digests
  import opened Bytes
  import opened Limbs

  /** A compression function with its initial value and the encoding of the final one. */
  datatype Hasher<!H> = Hasher(init: H, compress: (H, seq<byte>) -> H, encode: H -> seq<byte>)

  // ---------- the reference ----------

  /** The compression folded over the whole blocks of `s`. */
  function Fold<H>(f: Hasher<H>, h: H, s: seq<byte>): H {
    if |s| < 128 then h else Fold(f, f.compress(h, s[..128]), s[128..])
  }

  function Zeros(n: nat): (z: seq<byte>)
    ensures |z| == n
  {
    seq(n, i => 0)
  }

  /** `k` bytes of `n`, most significant first. */
  function Be(n: nat, k: nat): (r: seq<byte>)
    ensures |r| == k
  {
    if k == 0 then [] else Be(n / 256, k - 1) + [n % 256]
  }

  /** Section 5.1.2 of FIPS 180-4: a one bit, zeros, and the length in bits as a 128-bit number. */
  function Padding(length: nat): seq<byte> {
    var r := length % 128;
    [0x80] + Zeros(if r <= 111 then 111 - r else 239 - r) + Be(8 * length, 16)
  }

  /** The digit of weight 256^i is the byte that far from the end: the most significant byte comes first. */
  lemma {:induction false} BeAt(n: nat, k: nat, i: nat)
    requires i < k
    ensures Pow256(i) > 0 && Be(n, k)[k - 1 - i] == (n / Pow256(i)) % 256
  {
    if i > 0 {
      BeAt(n / 256, k - 1, i - 1);
      QuotientTwice(n, Pow256(i - 1));
    }
  }

  /**
   * The padding, byte by byte: 0x80, then zeros, then the length in bits in 16 bytes; at least these 17 bytes, and
   * no block more than needed to make the message whole blocks.
   */
  lemma {:induction false} PaddingBytes(length: nat)
    ensures var p := Padding(length);
      && 17 <= |p| < 17 + 128 && (length + |p|) % 128 == 0 && p[0] == 0x80
      && (forall i :: 1 <= i < |p| - 16 ==> p[i] == 0)
      && forall i :: 0 <= i < 16 ==> Pow256(i) > 0 && p[|p| - 1 - i] == (8 * length / Pow256(i)) % 256
  {
    var r := length % 128;
    var n := if r <= 111 then 111 - r else 239 - r;
    PaddingShape(length, n);
    hide Padding, Be, Pow256;
    forall i | 0 <= i < 16
      ensures Pow256(i) > 0 && Padding(length)[|Padding(length)| - 1 - i] == (8 * length / Pow256(i)) % 256
    {
      BeAt(8 * length, 16, i);
      assert Padding(length)[|Padding(length)| - 1 - i] == Padding(length)[|Padding(length)| - 16..][15 - i];
    }
    WholeBlocks(length, n);
  }

  lemma PaddingShape(length: nat, n: nat)
    requires n == (if length % 128 <= 111 then 111 - length % 128 else 239 - length % 128)
    ensures var p := Padding(length);
      && |p| == n + 17 && p[0] == 0x80 && (forall i :: 1 <= i < |p| - 16 ==> p[i] == 0)
      && p[|p| - 16..] == Be(8 * length, 16)
  {
    hide Be;
  }

  lemma WholeBlocks(length: nat, n: nat)
    requires n == (if length % 128 <= 111 then 111 - length % 128 else 239 - length % 128)
    ensures (length + n + 17) % 128 == 0 && n < 128
  {
  }

  function Hashed<H>(f: Hasher<H>, message: seq<byte>): seq<byte> {
    f.encode(Fold(f, f.init, message + Padding(|message|)))
  }

  lemma FoldStep<H>(f: Hasher<H>, h: H, s: seq<byte>)
    ensures Fold(f, h, s) == if |s| < 128 then h else Fold(f, f.compress(h, s[..128]), s[128..])
  {
  }

  lemma {:induction false} FoldConcat<H>(f: Hasher<H>, h: H, s: seq<byte>, t: seq<byte>)
    requires |s| % 128 == 0
    ensures Fold(f, h, s + t) == Fold(f, Fold(f, h, s), t)
  {
    hide *;
    FoldStep(f, h, s);
    FoldStep(f, h, s + t);
    if |s| == 0 {
      assert s + t == t;
    } else {
      assert (s + t)[..128] == s[..128] && (s + t)[128..] == s[128..] + t;
      FoldConcat(f, f.compress(h, s[..128]), s[128..], t);
    }
  }

  lemma FoldBlock<H>(f: Hasher<H>, h: H, s: seq<byte>)
    requires |s| == 128
    ensures Fold(f, h, s) == f.compress(h, s)
  {
    assert s[..128] == s;
    FoldStep(f, h, s);
    FoldStep(f, f.compress(h, s), s[128..]);
    hide Fold;
  }

  lemma {:induction false} BeConcat(a: nat, b: nat, j: nat, k: nat)
    requires a < Pow256(k)
    ensures Be(a + Pow256(k) * b, j + k) == Be(b, j) + Be(a, k)
  {
    if k == 0 {
      assert Be(a, 0) == [];
      assert Be(b, j) + Be(a, 0) == Be(b, j);
    } else {
      var c := Pow256(k - 1) * b;
      assert Pow256(k) * b == 256 * c;
      BeConcat(a / 256, b, j, k - 1);
      assert (a + 256 * c) / 256 == a / 256 + c && (a + 256 * c) % 256 == a % 256;
      assert Be(a, k) == Be(a / 256, k - 1) + [a % 256];
    }
  }

  // ---------- the counter ----------

  const TWO128: nat := 0x1_0000_0000_0000_0000_0000_0000_0000_0000

  /** The two words count `n` bits, modulo 2^128, in whole blocks. */
  ghost predicate Counts(t0: u64, t1: u64, n: nat) {
    t0 % 1024 == 0 && t0 + 0x1_0000_0000_0000_0000 * (t1 as int) == n % TWO128
  }

  function Next0(t0: u64): u64 {
    (t0 as int + 1024) % 0x1_0000_0000_0000_0000
  }

  function Next1(t0: u64, t1: u64): u64 {
    (t1 as int + (if Next0(t0) == 0 then 1 else 0)) % 0x1_0000_0000_0000_0000
  }

  lemma {:induction false} CountBlock(t0: u64, t1: u64, n: nat)
    requires Counts(t0, t1, n)
    ensures Counts(Next0(t0), Next1(t0, t1), n + 1024)
  {
    var q, r := n / TWO128, n % TWO128;
    assert n == TWO128 * q + r;
    var u0, u1 := Next0(t0), Next1(t0, t1);
    var s := u0 + 0x1_0000_0000_0000_0000 * (u1 as int);
    assert u0 % 1024 == 0 && (s == r + 1024 || s == r + 1024 - TWO128) by { CountWords(t0, t1); }
    if s == r + 1024 {
      DivUnique(n + 1024, TWO128, q, s);
    } else {
      DivUnique(n + 1024, TWO128, q + 1, s);
    }
  }

  lemma CountWords(t0: u64, t1: u64)
    requires t0 % 1024 == 0
    ensures var u0, u1 := Next0(t0), Next1(t0, t1);
            var s, r := u0 + 0x1_0000_0000_0000_0000 * (u1 as int), t0 + 0x1_0000_0000_0000_0000 * (t1 as int);
            u0 % 1024 == 0 && (s == r + 1024 || s == r + 1024 - TWO128)
  {
    var m := t0 / 1024;
    assert t0 == 1024 * m && m < 0x40_0000_0000_0000;
    if m == 0x3f_ffff_ffff_ffff {
      assert Next0(t0) == 0;
      assert Next1(t0, t1) == if t1 == 0xffff_ffff_ffff_ffff then 0 else t1 + 1;
    } else {
      assert Next0(t0) == 1024 * (m + 1);
      assert Next1(t0, t1) == t1;
    }
    hide *;
  }

  lemma CountZero()
    ensures Counts(0, 0, 0)
  {
  }

  // ---------- the state ----------

  /** The bytes of the message in whole blocks. */
  function Whole(n: nat): (w: nat)
    ensures w <= n < w + 128 && w % 128 == 0 && n - w == n % 128
  {
    n - n % 128
  }

  /** The hash state after `message`. */
  ghost predicate Absorbed<H>(f: Hasher<H>, h: H, t0: u64, t1: u64, leftover: nat, buffer: seq<byte>,
                              message: seq<byte>) {
    && leftover == |message| % 128 && leftover <= |buffer|
    && h == Fold(f, f.init, message[..Whole(|message|)])
    && buffer[..leftover] == message[Whole(|message|)..]
    && Counts(t0, t1, 8 * Whole(|message|))
  }

  lemma AbsorbedStart<H>(f: Hasher<H>, buffer: seq<byte>)
    ensures Absorbed(f, f.init, 0, 0, 0, buffer, [])
  {
    hide *;
    var none: seq<byte> := [];
    WholeOf(0, 0);
    assert none[..0] == none && none[0..] == none && buffer[..0] == none;
    FoldNone(f, f.init);
    CountZero();
    AbsorbedBy(f, f.init, 0, 0, 0, buffer, none);
  }

  lemma WholeOf(w: nat, r: nat)
    requires w % 128 == 0 && r < 128
    ensures Whole(w + r) == w && (w + r) % 128 == r
  {
  }

  lemma AbsorbedBy<H>(f: Hasher<H>, h: H, t0: u64, t1: u64, leftover: nat, buffer: seq<byte>, message: seq<byte>)
    requires leftover == |message| % 128 && leftover <= |buffer|
    requires h == Fold(f, f.init, message[..Whole(|message|)])
    requires buffer[..leftover] == message[Whole(|message|)..]
    requires Counts(t0, t1, 8 * Whole(|message|))
    ensures Absorbed(f, h, t0, t1, leftover, buffer, message)
  {
    hide Fold, Counts, Whole;
  }

  lemma AbsorbedIs<H>(f: Hasher<H>, h: H, t0: u64, t1: u64, leftover: nat, buffer: seq<byte>, message: seq<byte>)
    requires Absorbed(f, h, t0, t1, leftover, buffer, message)
    ensures leftover == |message| % 128 && leftover <= |buffer| && leftover < 128
    ensures h == Fold(f, f.init, message[..Whole(|message|)])
    ensures buffer[..leftover] == message[Whole(|message|)..]
    ensures Counts(t0, t1, 8 * Whole(|message|))
  {
    hide Fold, Counts, Whole;
  }

  /** The given bytes fit the buffer. */
  lemma {:induction false} AbsorbSome<H>(f: Hasher<H>, h: H, t0: u64, t1: u64, leftover: nat, buffer: seq<byte>,
                                         message: seq<byte>, data: seq<byte>, buffer': seq<byte>)
    requires Absorbed(f, h, t0, t1, leftover, buffer, message) && leftover + |data| < 128
    requires leftover + |data| <= |buffer'| && buffer'[..leftover + |data|] == buffer[..leftover] + data
    ensures Absorbed(f, h, t0, t1, leftover + |data|, buffer', message + data)
  {
    hide *;
    AbsorbedIs(f, h, t0, t1, leftover, buffer, message);
    var w := Whole(|message|);
    var m := message + data;
    WholeOf(w, leftover + |data|);
    assert m[..w] == message[..w] && m[w..] == message[w..] + data;
    AbsorbedBy(f, h, t0, t1, leftover + |data|, buffer', m);
  }

  /** The given bytes fill the buffer, which is then compressed. */
  lemma {:induction false} AbsorbFull<H>(f: Hasher<H>, h: H, t0: u64, t1: u64, leftover: nat, buffer: seq<byte>,
                                         message: seq<byte>, data: seq<byte>, block: seq<byte>, h': H, u0: u64, u1: u64,
                                         buffer': seq<byte>)
    requires Absorbed(f, h, t0, t1, leftover, buffer, message) && leftover + |data| == 128
    requires block == buffer[..leftover] + data && h' == Fold(f, h, block)
      && Counts(u0, u1, 8 * Whole(|message|) + 1024)
    ensures Absorbed(f, h', u0, u1, 0, buffer', message + data)
  {
    hide *;
    AbsorbedIs(f, h, t0, t1, leftover, buffer, message);
    var w := Whole(|message|);
    var m := message + data;
    WholeOf(w + 128, 0);
    assert m[..w + 128] == message[..w] + block && m[w + 128..] == [] && buffer'[..0] == [];
    FoldConcat(f, f.init, message[..w], block);
    AbsorbedBy(f, h', u0, u1, 0, buffer', m);
  }

  /** From an empty buffer: whole blocks are compressed and the rest is kept. */
  lemma {:induction false} AbsorbRest<H>(f: Hasher<H>, h: H, t0: u64, t1: u64, buffer: seq<byte>, message: seq<byte>,
                                         data: seq<byte>, h': H, u0: u64, u1: u64, buffer': seq<byte>)
    requires Absorbed(f, h, t0, t1, 0, buffer, message) && |data| % 128 <= |buffer'|
    requires h' == Fold(f, h, data[..Whole(|data|)]) && Counts(u0, u1, 8 * |message| + 8 * Whole(|data|))
    requires buffer'[..|data| % 128] == data[Whole(|data|)..]
    ensures Absorbed(f, h', u0, u1, |data| % 128, buffer', message + data)
  {
    hide *;
    AbsorbedIs(f, h, t0, t1, 0, buffer, message);
    var n, w := |message|, Whole(|data|);
    var m := message + data;
    WholeOf(n, 0);
    WholeOf(n + w, |data| % 128);
    assert message[..n] == message;
    assert m[..n + w] == message + data[..w] && m[n + w..] == data[w..];
    FoldConcat(f, f.init, message, data[..w]);
    AbsorbedBy(f, h', u0, u1, |data| % 128, buffer', m);
  }

  /** `memcpy` into a buffer. */
  method CopyInto(buffer: array<byte>, at: nat, data: seq<byte>)
    requires at + |data| <= buffer.Length
    modifies buffer
    ensures buffer[..at + |data|] == old(buffer[..at]) + data && buffer[at + |data|..] == old(buffer[at + |data|..])
  {
    ghost var b := buffer[..];
    for i := 0 to |data|
      invariant buffer[..at + i] == b[..at] + data[..i] && buffer[at + i..] == b[at + i..]
    {
      buffer[at + i] := data[i];
    }
    assert data[..|data|] == data;
  }

  lemma {:induction false} WordPower()
    ensures Pow256(8) == 0x1_0000_0000_0000_0000 && Pow256(16) == TWO128
  {
    assert Pow256(4) == 0x1_0000_0000;
    assert Pow256(8) == 0x1_0000_0000_0000_0000;
    assert Pow256(12) == 0x1_0000_0000_0000_0000_0000_0000;
  }

  lemma CountIs(t0: u64, t1: u64, n: nat) returns (q: nat)
    requires Counts(t0, t1, n)
    ensures n == 0x1_0000_0000_0000_0000_0000_0000_0000_0000 * q + (t0 + 0x1_0000_0000_0000_0000 * (t1 as int))
    ensures t0 <= 0xffff_ffff_ffff_fc00
  {
    q := n / TWO128;
  }

  /** The counter and the bytes left over are the length of the message. */
  lemma {:induction false} LengthBytes(t0: u64, t1: u64, w: nat, r: nat)
    requires Counts(t0, t1, 8 * w) && r < 128
    ensures t0 + 8 * (r as int) < 0x1_0000_0000_0000_0000
    ensures Be(8 * (w + r), 16) == Be(t1, 8) + Be(t0 + 8 * r, 8)
  {
    hide *;
    var q := CountIs(t0, t1, 8 * w);
    WordPower();
    var low := t0 + 8 * (r as int);
    BeConcat(low, t1, 8, 8);
    BeWraps(low + 0x1_0000_0000_0000_0000 * (t1 as int), q);
  }

  /** Sixteen bytes hold a number modulo 2^128. */
  lemma {:induction false} BeWraps(n: nat, q: nat)
    requires n < 0x1_0000_0000_0000_0000_0000_0000_0000_0000
    ensures Be(n + 0x1_0000_0000_0000_0000_0000_0000_0000_0000 * q, 16) == Be(n, 16)
  {
    hide Be, Pow256;
    WordPower();
    BeConcat(n, q, 0, 16);
    BeNone(q);
  }

  lemma BeNone(n: nat)
    ensures Be(n, 0) == []
  {
  }

  /** The message and its padding, from the whole blocks on. */
  lemma {:induction false} DigestTail<H>(f: Hasher<H>, h: H, message: seq<byte>, tail: seq<byte>)
    requires h == Fold(f, f.init, message[..Whole(|message|)])
    requires tail == message[Whole(|message|)..] + Padding(|message|)
    ensures Hashed(f, message) == f.encode(Fold(f, h, tail))
  {
    var w := Whole(|message|);
    assert message + Padding(|message|) == message[..w] + tail;
    hide Fold, Padding;
    FoldConcat(f, f.init, message[..w], tail);
  }

  lemma PaddingIs(length: nat, r: nat)
    requires r == length % 128
    ensures Padding(length) == [0x80] + Zeros(if r <= 111 then 111 - r else 239 - r) + Be(8 * length, 16)
  {
  }

  lemma ZerosJoin(a: nat, b: nat)
    ensures Zeros(a) + Zeros(b) == Zeros(a + b)
  {
  }

  /** The length as two words at the end of the block. */
  method PutLength(buffer: array<byte>, c1: u64, c0: u64)
    requires buffer.Length == 128
    modifies buffer
    ensures buffer[..] == old(buffer[..112]) + (Be(c1, 8) + Be(c0, 8))
  {
    hide *;
    CopyInto(buffer, 112, Be(c1, 8));
    CopyInto(buffer, 120, Be(c0, 8));
    assert buffer[..128] == buffer[..];
  }

  /** One block of padding. */
  lemma {:induction false} ShortTail(length: nat, r: nat, left: seq<byte>, last: seq<byte>)
    requires r == length % 128 == |left| && r <= 111 && last == Be(8 * length, 16)
    ensures left + ([0x80] + Zeros(111 - r)) + last == left + Padding(length)
  {
    hide *;
    PaddingIs(length, r);
  }

  /** Two blocks of padding. */
  lemma {:induction false} LongTail(length: nat, r: nat, left: seq<byte>, last: seq<byte>)
    requires r == length % 128 == |left| && r > 111 && last == Be(8 * length, 16)
    ensures (left + ([0x80] + Zeros(127 - r))) + (Zeros(112) + last) == left + Padding(length)
  {
    hide *;
    PaddingIs(length, r);
    ZerosJoin(127 - r, 112);
    assert ([0x80] + Zeros(127 - r)) + (Zeros(112) + last) == [0x80] + (Zeros(127 - r) + Zeros(112)) + last;
  }

  class Stream<H> {
    const f: Hasher<H>
    var h: H
    var t0: u64
    var t1: u64
    var leftover: nat
    const buffer: array<byte>
    /** All that was given to `Update` so far. */
    ghost var message: seq<byte>

    ghost predicate Valid()
      reads this, buffer
    {
      buffer.Length == 128 && Absorbed(f, h, t0, t1, leftover, buffer[..], message)
    }

    /** `ed25519_hash_init` */
    constructor (f: Hasher<H>)
      ensures Valid() && fresh(buffer) && this.f == f && message == []
    {
      this.f := f;
      h := f.init;
      t0, t1, leftover := 0, 0, 0;
      buffer := new byte[128];
      message := [];
      new;
      hide Absorbed;
      AbsorbedStart(f, buffer[..]);
    }

    /** `sha512_blocks`: the compression of whole blocks, and the count of their bits. */
    method Blocks(data: seq<byte>, ghost n: nat)
      requires |data| % 128 == 0 && Counts(t0, t1, n)
      modifies this`h, this`t0, this`t1
      ensures h == Fold(f, old(h), data) && Counts(t0, t1, n + 8 * |data|)
    {
      hide *;
      var i := 0;
      ghost var h0 := h;
      FoldStep(f, h, []);
      while i < |data|
        invariant 0 <= i <= |data| && i % 128 == 0
        invariant h == Fold(f, h0, data[..i]) && Counts(t0, t1, n + 8 * i)
      {
        var block := data[i..i + 128];
        assert data[..i + 128] == data[..i] + block;
        FoldConcat(f, h0, data[..i], block);
        FoldBlock(f, h, block);
        h := f.compress(h, block);
        CountBlock(t0, t1, n + 8 * i);
        t0, t1 := Next0(t0), Next1(t0, t1);
        i := i + 128;
      }
      assert data[..i] == data;
    }

    /** `ed25519_hash_update` */
    method Update(data: seq<byte>)
      requires Valid()
      modifies this, buffer
      ensures Valid() && message == old(message) + data
    {
      hide Absorbed, Fold, Counts;
      var rest := data;
      if leftover > 0 {
        var want := if 128 - leftover < |data| then 128 - leftover else |data|;
        AbsorbedIs(f, h, t0, t1, leftover, buffer[..], message);
        ghost var b, m := buffer[..], message;
        CopyInto(buffer, leftover, data[..want]);
        if leftover + want < 128 {
          assert data[..want] == data;
          AbsorbSome(f, h, t0, t1, leftover, b, message, data, buffer[..]);
          leftover := leftover + want;
          message := message + data;
          return;
        }
        rest := data[want..];
        ghost var h0, c0, c1, l := h, t0, t1, leftover;
        Blocks(buffer[..], 8 * Whole(|message|));
        AbsorbFull(f, h0, c0, c1, l, b, m, data[..want], buffer[..], h, t0, t1, buffer[..]);
        message := message + data[..want];
        leftover := 0;
      }
      assert message + rest == old(message) + data;
      Remaining(rest);
    }

    /** The blocks of `data`, and what is left over. */
    method Remaining(data: seq<byte>)
      requires Valid() && leftover == 0
      modifies this, buffer
      ensures Valid() && message == old(message) + data
    {
      hide Absorbed, Fold, Counts;
      AbsorbedIs(f, h, t0, t1, leftover, buffer[..], message);
      ghost var b, h0, c0, c1 := buffer[..], h, t0, t1;
      var blocks := Whole(|data|);
      leftover := |data| % 128;
      assert Whole(|message|) == |message|;
      FoldNone(f, h);
      assert data[..0] == [];
      if blocks > 0 {
        Blocks(data[..blocks], 8 * |message|);
      }
      if leftover > 0 {
        CopyInto(buffer, 0, data[blocks..]);
      }
      assert buffer[..][..leftover] == data[blocks..];
      AbsorbRest(f, h0, c0, c1, b, message, data, h, t0, t1, buffer[..]);
      message := message + data;
    }

    /** `ed25519_hash_final`: pads what is left, with the length, and compresses it. */
    method Final() returns (hash: seq<byte>)
      requires Valid()
      modifies this, buffer
      ensures hash == Hashed(f, old(message))
    {
      hide *;
      ValidIs();
      AbsorbedIs(f, h, t0, t1, leftover, buffer[..], message);
      ghost var m, h0, w := message, h, Whole(|message|);
      ghost var r := leftover;
      LengthBytes(t0, t1, w, leftover);
      var c0: u64, c1: u64 := t0 + leftover * 8, t1;
      ghost var left, last := m[w..], Be(8 * |m|, 16);
      ghost var n := 8 * w;
      if leftover <= 111 {
        CopyInto(buffer, leftover, [0x80] + Zeros(111 - leftover));
        ShortTail(|m|, r, left, last);
        DigestTail(f, h0, m, left + Padding(|m|));
        PutLength(buffer, c1, c0);
        assert buffer[..] == left + Padding(|m|);
      } else {
        CopyInto(buffer, leftover, [0x80] + Zeros(127 - leftover));
        ghost var first := buffer[..];
        assert first == buffer[..128] == left + ([0x80] + Zeros(127 - r));
        Blocks(buffer[..], n);
        n := n + 8 * 128;
        CopyInto(buffer, 0, Zeros(112));
        assert buffer[..112] == Zeros(112);
        LongTail(|m|, r, left, last);
        DigestTail(f, h0, m, left + Padding(|m|));
        FoldConcat(f, h0, first, Zeros(112) + last);
        PutLength(buffer, c1, c0);
        assert buffer[..] == Zeros(112) + last;
      }
      Blocks(buffer[..], n);
      hash := f.encode(h);
    }

    lemma ValidIs()
      requires Valid()
      ensures buffer.Length == 128 && Absorbed(f, h, t0, t1, leftover, buffer[..], message)
    {
      hide Absorbed;
    }
  }

  lemma FoldNone<H>(f: Hasher<H>, h: H)
    ensures Fold(f, h, []) == h
  {
  }
}
