/** 32-byte digests and `hashtree::addhash`; SHA-256 is a parameter. */
module Digests {
  import opened MerkleTree

  type byte = x: int | 0 <= x < 256

  type Digest = d: seq<byte> | |d| == 32 witness seq(32, _ => 0)

  type Sha = seq<byte> -> Digest

  /** Byte order, as `memcmp` sees it. */
  predicate Less(a: seq<byte>, b: seq<byte>)
    requires |a| == |b|
  {
    |a| > 0 && (a[0] < b[0] || (a[0] == b[0] && Less(a[1..], b[1..])))
  }

  /** The hash of the smaller digest followed by the larger. */
  function Join(sha: Sha, a: Digest, b: Digest): Digest {
    if Less(b, a) then sha(b + a) else sha(a + b)
  }

  function Joiner(sha: Sha): (Digest, Digest) -> Digest {
    (a, b) => Join(sha, a, b)
  }

  lemma {:induction false} LessTotal(a: seq<byte>, b: seq<byte>)
    requires |a| == |b|
    ensures Less(a, b) ==> !Less(b, a)
    ensures !Less(a, b) && !Less(b, a) ==> a == b
  {
    if |a| > 0 {
      LessTotal(a[1..], b[1..]);
      assert a == [a[0]] + a[1..] && b == [b[0]] + b[1..];
    }
  }

  /** `hash(a, b) == hash(b, a)`: the order of the two digests does not matter. */
  lemma JoinCommutes(sha: Sha)
    ensures Commutative(Joiner(sha))
  {
    forall a: Digest, b: Digest
      ensures Join(sha, a, b) == Join(sha, b, a)
    {
      LessTotal(a, b);
    }
  }

  lemma {:induction false} LessSkip(a: seq<byte>, b: seq<byte>, i: nat)
    requires i <= |a| == |b| && a[..i] == b[..i]
    ensures Less(a, b) == Less(a[i..], b[i..])
  {
    if i > 0 {
      assert a[0] == a[..i][0] == b[..i][0] == b[0];
      assert a[1..][..i - 1] == a[..i][1..] == b[..i][1..] == b[1..][..i - 1];
      LessSkip(a[1..], b[1..], i - 1);
      assert a[1..][i - 1..] == a[i..] && b[1..][i - 1..] == b[i..];
    } else {
      assert a[0..] == a && b[0..] == b;
    }
  }

  /** A string of bytes as a number, the most significant first. */
  function Number(s: seq<byte>): nat {
    if s == [] then 0 else 256 * Number(s[..|s| - 1]) + s[|s| - 1]
  }

  /** The first byte that differs decides. */
  lemma {:induction false} LessAt(a: seq<byte>, b: seq<byte>, k: nat)
    requires k < |a| == |b| && a[..k] == b[..k] && a[k] < b[k]
    ensures Less(a, b) && !Less(b, a)
  {
    LessSkip(a, b, k);
    LessTotal(a, b);
  }

  /** Byte order is the order of the numbers. */
  lemma {:induction false} LessIsNumber(a: seq<byte>, b: seq<byte>)
    requires |a| == |b|
    ensures Less(a, b) <==> Number(a) < Number(b)
    ensures a == b <==> Number(a) == Number(b)
  {
    if a != [] {
      var n := |a| - 1;
      LessIsNumber(a[..n], b[..n]);
      LessLast(a, b);
      assert a == a[..n] + [a[n]] && b == b[..n] + [b[n]];
    }
  }

  lemma {:induction false} LessLast(a: seq<byte>, b: seq<byte>)
    requires |a| == |b| > 0
    ensures var n := |a| - 1; Less(a, b) <==> Less(a[..n], b[..n]) || (a[..n] == b[..n] && a[n] < b[n])
  {
    var n := |a| - 1;
    if n > 0 {
      LessLast(a[1..], b[1..]);
      assert a[1..][..n - 1] == a[..n][1..] && b[1..][..n - 1] == b[..n][1..];
      assert a[..n] == [a[0]] + a[..n][1..] && b[..n] == [b[0]] + b[..n][1..];
    }
  }

  /** The digest with the smaller number is hashed first. */
  lemma {:induction false} SmallerFirst(sha: Sha, a: Digest, b: Digest)
    ensures Join(sha, a, b) == if Number(a) <= Number(b) then sha(a + b) else sha(b + a)
  {
    hide Less, Number;
    LessIsNumber(a, b);
    LessIsNumber(b, a);
  }

  /** The loop of `addhash`: compare byte by byte, hash the smaller digest first. */
  method AddHash(sha: Sha, hash: Digest, add: Digest) returns (r: Digest)
    ensures r == Join(sha, hash, add)
    ensures hash == add ==> r == sha(hash + hash)
    ensures forall k :: 0 <= k < 32 && hash[..k] == add[..k] ==>
      (hash[k] < add[k] ==> r == sha(hash + add)) && (hash[k] > add[k] ==> r == sha(add + hash))
  {
    forall k | 0 <= k < 32 && hash[..k] == add[..k]
      ensures hash[k] < add[k] ==> Join(sha, hash, add) == sha(hash + add)
      ensures hash[k] > add[k] ==> Join(sha, hash, add) == sha(add + hash)
    {
      if hash[k] < add[k] {
        LessAt(hash, add, k);
      } else if hash[k] > add[k] {
        LessAt(add, hash, k);
      }
    }
    for i := 0 to 32
      invariant hash[..i] == add[..i]
    {
      LessSkip(add, hash, i);
      if hash[i] < add[i] {
        assert !Less(add, hash);
        break;
      }
      if hash[i] > add[i] {
        return sha(add + hash);
      }
    }
    if hash[..32] == add[..32] {
      LessSkip(add, hash, 32);
    }
    return sha(hash + add);
  }
}
