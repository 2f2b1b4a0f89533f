/** Little-endian integers and fixed-width records in byte sequences. */
module Bytes {
  import opened Digests
  import Arith

  function Pow256(k: nat): nat {
    if k == 0 then 1 else 256 * Pow256(k - 1)
  }

  /** `k` bytes of `n`, least significant first. */
  function Le(n: nat, k: nat): (r: seq<byte>)
    ensures |r| == k
  {
    if k == 0 then [] else [n % 256] + Le(n / 256, k - 1)
  }

  function FromLe(s: seq<byte>): nat {
    if s == [] then 0 else s[0] + 256 * FromLe(s[1..])
  }

  lemma {:induction false} LeRoundTrip(n: nat, k: nat)
    requires n < Pow256(k)
    ensures FromLe(Le(n, k)) == n
  {
    if k > 0 {
      LeRoundTrip(n / 256, k - 1);
      assert Le(n, k)[1..] == Le(n / 256, k - 1);
    }
  }

  /** Byte `i` is the digit of weight 256^i: the least significant byte comes first. */
  lemma {:induction false} LeAt(n: nat, k: nat, i: nat)
    requires i < k
    ensures Pow256(i) > 0 && Le(n, k)[i] == (n / Pow256(i)) % 256
  {
    if i > 0 {
      LeAt(n / 256, k - 1, i - 1);
      QuotientTwice(n, Pow256(i - 1));
    }
  }

  lemma {:induction false} QuotientTwice(n: nat, p: nat)
    requires p > 0
    ensures (n / 256) / p == n / (256 * p)
  {
    var a := n / 256;
    var q, r := a / p, a % p;
    assert a == p * q + r;
    assert n == 256 * a + n % 256;
    assert 256 * (p * q) == (256 * p) * q;
    Arith.DivUnique(n, 256 * p, q, 256 * r + n % 256);
  }

  lemma {:induction false} LeFromLe(s: seq<byte>)
    ensures Le(FromLe(s), |s|) == s
  {
    if s != [] {
      LeFromLe(s[1..]);
      assert s == [s[0]] + s[1..];
    }
  }

  lemma {:induction false} FromLeBound(s: seq<byte>)
    ensures FromLe(s) < Pow256(|s|)
  {
    if s != [] {
      FromLeBound(s[1..]);
    }
  }

  /** Concatenation of chunks. */
  function Flat(chunks: seq<seq<byte>>): seq<byte> {
    if chunks == [] then [] else chunks[0] + Flat(chunks[1..])
  }

  ghost predicate Width(chunks: seq<seq<byte>>, w: nat) {
    forall i :: 0 <= i < |chunks| ==> |chunks[i]| == w
  }

  lemma {:induction false} FlatConcat(a: seq<seq<byte>>, b: seq<seq<byte>>)
    ensures Flat(a + b) == Flat(a) + Flat(b)
  {
    if a == [] {
      assert a + b == b;
    } else {
      assert (a + b)[1..] == a[1..] + b;
      FlatConcat(a[1..], b);
    }
  }

  lemma {:induction false} FlatLength(chunks: seq<seq<byte>>, w: nat)
    requires Width(chunks, w)
    ensures |Flat(chunks)| == w * |chunks|
  {
    if chunks != [] {
      FlatLength(chunks[1..], w);
      assert w * |chunks| == w + w * |chunks[1..]|;
    }
  }

  /** Record `i` of a table of fixed-width records. */
  lemma {:induction false} FlatAt(chunks: seq<seq<byte>>, w: nat, i: nat)
    requires Width(chunks, w) && i < |chunks|
    ensures 0 <= w * i <= w * i + w <= |Flat(chunks)|
    ensures Flat(chunks)[w * i..w * i + w] == chunks[i]
  {
    hide Flat;
    var a, b := chunks[..i], chunks[i + 1..];
    assert chunks == a + ([chunks[i]] + b);
    FlatConcat(a, [chunks[i]] + b);
    FlatConcat([chunks[i]], b);
    FlatLength(a, w);
    FlatOne(chunks[i]);
    SliceMiddle(Flat(a), chunks[i], Flat(b));
  }

  lemma FlatOne(c: seq<byte>)
    ensures Flat([c]) == c && Flat([]) == []
  {
    assert Flat([c]) == c + Flat([]);
  }

  lemma SliceMiddle(a: seq<byte>, b: seq<byte>, c: seq<byte>)
    ensures (a + (b + c))[|a|..|a| + |b|] == b
  {
  }

  lemma SliceSlice(s: seq<byte>, i: nat, j: nat, a: nat, b: nat)
    requires i <= j <= |s| && a <= b <= j - i
    ensures s[i..j][a..b] == s[i + a..i + b]
  {
    assert forall k :: 0 <= k < j - i ==> s[i..j][k] == s[i + k];
  }

  lemma {:induction false} FromLeConcat(a: seq<byte>, b: seq<byte>)
    ensures FromLe(a + b) == FromLe(a) + Pow256(|a|) * FromLe(b)
  {
    if a == [] {
      assert a + b == b;
    } else {
      assert (a + b)[1..] == a[1..] + b;
      FromLeConcat(a[1..], b);
      assert 256 * (Pow256(|a| - 1) * FromLe(b)) == Pow256(|a|) * FromLe(b);
    }
  }

  lemma {:induction false} FromLeZeros(s: seq<byte>)
    requires forall i :: 0 <= i < |s| ==> s[i] == 0
    ensures FromLe(s) == 0
  {
    if s != [] {
      FromLeZeros(s[1..]);
    }
  }

  lemma {:induction false} LeConcat(a: nat, b: nat, i: nat, j: nat)
    requires a < Pow256(i)
    ensures Le(a + Pow256(i) * b, i + j) == Le(a, i) + Le(b, j)
  {
    if i == 0 {
      assert Le(a, 0) == [];
      assert Le(a, 0) + Le(b, j) == Le(b, j);
    } else {
      var c := Pow256(i - 1) * b;
      assert Pow256(i) * b == 256 * c;
      LeConcat(a / 256, b, i - 1, j);
      assert (a + 256 * c) / 256 == a / 256 + c && (a + 256 * c) % 256 == a % 256;
    }
  }
}
