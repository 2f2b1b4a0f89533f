/**
 * The tree behind `hashtree`: its levels, the order in which its nodes are logged, and the
 * place of every node in that log.
 *
 * A level is halved by hashing neighbours and promoting a lone last element unchanged.
 */
module MerkleTree {
  import opened Binary

  ghost predicate Commutative<H(!new)>(f: (H, H) -> H) {
    forall a, b :: f(a, b) == f(b, a)
  }

  function Up<H>(f: (H, H) -> H, s: seq<H>): (u: seq<H>)
    ensures |u| == (|s| + 1) / 2
  {
    seq((|s| + 1) / 2, i requires 0 <= i < (|s| + 1) / 2 =>
      if 2 * i + 1 < |s| then f(s[2 * i], s[2 * i + 1]) else s[2 * i])
  }

  /** Level `t` above `s`; entry `h` covers the elements `h * 2^t .. (h + 1) * 2^t` of `s`. */
  function Level<H>(f: (H, H) -> H, s: seq<H>, t: nat): (l: seq<H>)
    ensures |s| > 0 ==> |l| == Shr(|s| - 1, t) + 1
  {
    if t == 0 then s else
      var u := Level(f, s, t - 1);
      if |s| > 0 then ShrStep(|s| - 1, t - 1); Up(f, u) else Up(f, u)
  }

  /** Section 2.1 of RFC 6962: split at the largest power of two below the size. */
  function SplitPoint(n: nat): (k: nat)
    requires n >= 2
    ensures k < n <= 2 * k
  {
    if n == 2 then 1 else 2 * SplitPoint((n + 1) / 2)
  }

  function Mth<H>(f: (H, H) -> H, s: seq<H>): H
    requires |s| > 0
    decreases |s|
  {
    if |s| == 1 then s[0]
    else
      var k := SplitPoint(|s|);
      f(Mth(f, s[..k]), Mth(f, s[k..]))
  }

  lemma UpSlices<H>(f: (H, H) -> H, s: seq<H>, k: nat)
    requires 2 * k <= |s|
    ensures Up(f, s)[..k] == Up(f, s[..2 * k])
    ensures Up(f, s)[k..] == Up(f, s[2 * k..])
  {
  }

  lemma UpSingle<H>(f: (H, H) -> H, s: seq<H>)
    requires |s| == 1
    ensures Up(f, s) == s
  {
  }

  lemma {:induction false} MthUp<H>(f: (H, H) -> H, s: seq<H>)
    requires |s| > 0
    ensures Mth(f, Up(f, s)) == Mth(f, s)
    decreases |s|
  {
    if |s| == 1 {
      UpSingle(f, s);
    } else if |s| == 2 {
      assert s[..1] == [s[0]] && s[1..] == [s[1]];
    } else {
      var k := SplitPoint(|Up(f, s)|);
      assert SplitPoint(|s|) == 2 * k;
      UpSlices(f, s, k);
      MthUp(f, s[..2 * k]);
      MthUp(f, s[2 * k..]);
    }
  }

  /** The top of the levels is the RFC 6962 root. */
  lemma {:induction false} LevelRoot<H>(f: (H, H) -> H, s: seq<H>, t: nat)
    requires |s| > 0
    ensures Mth(f, Level(f, s, t)) == Mth(f, s)
  {
    if t > 0 {
      LevelRoot(f, s, t - 1);
      MthUp(f, Level(f, s, t - 1));
    }
  }

  lemma TopIsRoot<H>(f: (H, H) -> H, s: seq<H>, t: nat)
    requires |s| > 0 && Shr(|s| - 1, t) == 0
    ensures Level(f, s, t) == [Mth(f, s)]
  {
    LevelRoot(f, s, t);
  }

  lemma {:induction false} LevelStep<H>(f: (H, H) -> H, s: seq<H>, t: nat)
    ensures Level(f, s, t + 1) == Up(f, Level(f, s, t))
  {
  }

  lemma {:induction false} LevelShift<H>(f: (H, H) -> H, s: seq<H>, t: nat)
    ensures Level(f, Up(f, s), t) == Level(f, s, t + 1)
  {
    if t == 0 {
      LevelStep(f, s, 0);
      assert Level(f, Up(f, s), 0) == Up(f, s);
    } else {
      hide *;
      LevelShift(f, s, t - 1);
      LevelStep(f, Up(f, s), t - 1);
      LevelStep(f, s, t);
    }
  }
}
