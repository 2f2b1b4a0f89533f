/** What it takes for two runs of `hashpathrun` to end in the same hash. */
module Collisions {
  import opened MerkleTree
  import opened MerkleProof
  import opened Digests

  /** The bytes hashed for a pair. */
  function Pair(a: Digest, b: Digest): (r: seq<byte>)
    ensures |r| == 64
  {
    if Less(b, a) then b + a else a + b
  }

  ghost predicate Collide(sha: Sha, u: seq<byte>, v: seq<byte>) {
    u != v && sha(u) == sha(v)
  }

  lemma PairIs(sha: Sha, a: Digest, b: Digest)
    ensures Joiner(sha)(a, b) == sha(Pair(a, b))
  {
    hide Less;
  }

  /** Equal bytes come from the same two hashes, on either side. */
  lemma {:induction false} PairSame(a: Digest, x: Digest, b: Digest, y: Digest)
    requires Pair(a, x) == Pair(b, y)
    ensures (a == b && x == y) || (a == y && x == b)
  {
    hide Less;
    var p, q := Pair(a, x), Pair(b, y);
    assert p[..32] == (if Less(x, a) then x else a) && p[32..] == (if Less(x, a) then a else x);
    assert q[..32] == (if Less(y, b) then y else b) && q[32..] == (if Less(y, b) then b else y);
  }

  /** Equal joins of two pairs: a collision, or the same two hashes. */
  lemma {:induction false} JoinsMeet(sha: Sha, a: Digest, x: Digest, b: Digest, y: Digest)
    requires Joiner(sha)(a, x) == Joiner(sha)(b, y)
    ensures Collide(sha, Pair(a, x), Pair(b, y)) || (a == b && x == y) || (a == y && x == b)
  {
    PairIs(sha, a, x);
    PairIs(sha, b, y);
    hide Pair, Joiner;
    if Pair(a, x) == Pair(b, y) {
      PairSame(a, x, b, y);
    }
  }

  /** From `j` steps before the end the runs go on alike, and there each has the hash the other is joined with. */
  ghost predicate Across<H>(f: (H, H) -> H, a: H, xs: seq<H>, b: H, ys: seq<H>, j: nat) {
    && j < |xs| && j < |ys|
    && var m, n := |xs| - 1 - j, |ys| - 1 - j;
       Fold(f, a, xs[..m]) == ys[n] && Fold(f, b, ys[..n]) == xs[m] && xs[m + 1..] == ys[n + 1..]
  }

  /** The run from `a` passes through `b` and goes on like the run from `b`. */
  ghost predicate Through<H>(f: (H, H) -> H, a: H, xs: seq<H>, b: H, ys: seq<H>) {
    |xs| >= |ys| && Fold(f, a, xs[..|xs| - |ys|]) == b && xs[|xs| - |ys|..] == ys
  }

  /** The runs meet without a collision. */
  ghost predicate Meet<H>(f: (H, H) -> H, a: H, xs: seq<H>, b: H, ys: seq<H>) {
    Through(f, a, xs, b, ys) || Through(f, b, ys, a, xs) || exists j: nat :: Across(f, a, xs, b, ys, j)
  }

  lemma FoldLast<H>(f: (H, H) -> H, a: H, xs: seq<H>)
    requires xs != []
    ensures Fold(f, a, xs) == f(Fold(f, a, xs[..|xs| - 1]), xs[|xs| - 1])
  {
    var p, x := xs[..|xs| - 1], xs[|xs| - 1];
    assert xs == p + [x];
    FoldConcat(f, a, p, [x]);
    FoldShort(f, Fold(f, a, p), [x]);
  }

  lemma {:induction false} FoldNone<H>(f: (H, H) -> H, a: H)
    ensures Fold(f, a, []) == a
  {
  }

  /** One more equal step after a meeting. */
  lemma {:induction false} MeetOn<H>(f: (H, H) -> H, a: H, xs: seq<H>, b: H, ys: seq<H>)
    requires xs != [] && ys != [] && xs[|xs| - 1] == ys[|ys| - 1]
    requires Meet(f, a, xs[..|xs| - 1], b, ys[..|ys| - 1])
    ensures Meet(f, a, xs, b, ys)
  {
    hide Fold;
    var p, q := xs[..|xs| - 1], ys[..|ys| - 1];
    if Through(f, a, p, b, q) {
      ThroughOn(f, a, xs, b, ys);
    } else if Through(f, b, q, a, p) {
      ThroughOn(f, b, ys, a, xs);
    } else {
      var j: nat :| Across(f, a, p, b, q, j);
      hide *;
      AcrossOn(f, a, xs, b, ys, j);
      MeetsAcross(f, a, xs, b, ys, j + 1);
    }
  }

  lemma MeetsAcross<H>(f: (H, H) -> H, a: H, xs: seq<H>, b: H, ys: seq<H>, j: nat)
    requires Across(f, a, xs, b, ys, j)
    ensures Meet(f, a, xs, b, ys)
  {
    hide Across, Through;
  }

  lemma {:induction false} AcrossOn<H>(f: (H, H) -> H, a: H, xs: seq<H>, b: H, ys: seq<H>, j: nat)
    requires xs != [] && ys != [] && xs[|xs| - 1] == ys[|ys| - 1]
    requires Across(f, a, xs[..|xs| - 1], b, ys[..|ys| - 1], j)
    ensures Across(f, a, xs, b, ys, j + 1)
  {
    hide Fold;
    var p, q := xs[..|xs| - 1], ys[..|ys| - 1];
    var m, n := |p| - 1 - j, |q| - 1 - j;
    assert p[..m] == xs[..m] && q[..n] == ys[..n] && p[m] == xs[m] && q[n] == ys[n];
    assert xs[m + 1..] == p[m + 1..] + [xs[|xs| - 1]] && ys[n + 1..] == q[n + 1..] + [ys[|ys| - 1]];
  }

  lemma {:induction false} ThroughOn<H>(f: (H, H) -> H, a: H, xs: seq<H>, b: H, ys: seq<H>)
    requires xs != [] && ys != [] && xs[|xs| - 1] == ys[|ys| - 1]
    requires Through(f, a, xs[..|xs| - 1], b, ys[..|ys| - 1])
    ensures Through(f, a, xs, b, ys)
  {
    hide Fold;
    var p, q, k := xs[..|xs| - 1], ys[..|ys| - 1], |xs| - |ys|;
    assert p[..k] == xs[..k];
    assert xs[k..] == p[k..] + [xs[|xs| - 1]] && ys == q + [ys[|ys| - 1]];
  }

  /** Two runs of any lengths that end alike meet, or two strings on the way collide. */
  lemma {:induction false} RunsMeet(sha: Sha, a: Digest, xs: seq<Digest>, b: Digest, ys: seq<Digest>)
    returns (u: seq<byte>, v: seq<byte>)
    requires Fold(Joiner(sha), a, xs) == Fold(Joiner(sha), b, ys)
    ensures Collide(sha, u, v) || Meet(Joiner(sha), a, xs, b, ys)
    decreases |xs|
  {
    hide Fold, Joiner, Pair, Across, Collide;
    var f := Joiner(sha);
    u, v := [], [];
    FoldNone(f, a);
    FoldNone(f, b);
    if xs == [] {
      assert ys[..|ys|] == ys && ys[|ys|..] == [];
      assert Through(f, b, ys, a, xs);
    } else if ys == [] {
      assert xs[..|xs|] == xs && xs[|xs|..] == [];
      assert Through(f, a, xs, b, ys);
    } else {
      var p, x, q, y := xs[..|xs| - 1], xs[|xs| - 1], ys[..|ys| - 1], ys[|ys| - 1];
      FoldLast(f, a, xs);
      FoldLast(f, b, ys);
      var c, d := Fold(f, a, p), Fold(f, b, q);
      JoinsMeet(sha, c, x, d, y);
      if Collide(sha, Pair(c, x), Pair(d, y)) {
        u, v := Pair(c, x), Pair(d, y);
      } else if c == d && x == y {
        u, v := RunsMeet(sha, a, p, b, q);
        if Meet(f, a, p, b, q) {
          MeetOn(f, a, xs, b, ys);
        }
      } else {
        AcrossAtEnd(f, a, xs, b, ys);
      }
    }
  }

  lemma AcrossAtEnd<H>(f: (H, H) -> H, a: H, xs: seq<H>, b: H, ys: seq<H>)
    requires xs != [] && ys != []
    requires Fold(f, a, xs[..|xs| - 1]) == ys[|ys| - 1] && Fold(f, b, ys[..|ys| - 1]) == xs[|xs| - 1]
    ensures Across(f, a, xs, b, ys, 0) && Meet(f, a, xs, b, ys)
  {
    hide Fold, Through;
    assert xs[|xs|..] == ys[|ys|..];
    assert Across(f, a, xs, b, ys, 0);
  }

  /** Runs of one length that meet are the same, or meet across. */
  lemma MeetSameLength<H>(f: (H, H) -> H, a: H, xs: seq<H>, b: H, ys: seq<H>)
    requires |xs| == |ys|
    ensures Meet(f, a, xs, b, ys) ==> (a == b && xs == ys) || exists j: nat :: Across(f, a, xs, b, ys, j)
  {
    FoldNone(f, a);
    FoldNone(f, b);
    hide Fold, Across;
    assert xs[..0] == [] && ys[..0] == [] && xs[0..] == xs && ys[0..] == ys;
  }

  /** Runs that meet end alike. */
  lemma {:induction false} MeetEndsAlike<H(!new)>(f: (H, H) -> H, a: H, xs: seq<H>, b: H, ys: seq<H>)
    requires Commutative(f) && Meet(f, a, xs, b, ys)
    ensures Fold(f, a, xs) == Fold(f, b, ys)
  {
    hide Fold, Across;
    if Through(f, a, xs, b, ys) {
      ThroughEndsAlike(f, a, xs, b, ys);
    } else if Through(f, b, ys, a, xs) {
      ThroughEndsAlike(f, b, ys, a, xs);
    } else {
      var j: nat :| Across(f, a, xs, b, ys, j);
      AcrossEndsAlike(f, a, xs, b, ys, j);
    }
  }

  lemma {:induction false} ThroughEndsAlike<H>(f: (H, H) -> H, a: H, xs: seq<H>, b: H, ys: seq<H>)
    requires Through(f, a, xs, b, ys)
    ensures Fold(f, a, xs) == Fold(f, b, ys)
  {
    hide Fold;
    var k := |xs| - |ys|;
    assert xs == xs[..k] + xs[k..];
    FoldConcat(f, a, xs[..k], xs[k..]);
  }

  lemma {:induction false} AcrossEndsAlike<H(!new)>(f: (H, H) -> H, a: H, xs: seq<H>, b: H, ys: seq<H>, j: nat)
    requires Commutative(f) && Across(f, a, xs, b, ys, j)
    ensures Fold(f, a, xs) == Fold(f, b, ys)
  {
    hide Fold;
    var m, n := |xs| - 1 - j, |ys| - 1 - j;
    assert xs == xs[..m + 1] + xs[m + 1..] && ys == ys[..n + 1] + ys[n + 1..];
    assert xs[..m + 1][..m] == xs[..m] && ys[..n + 1][..n] == ys[..n];
    FoldLast(f, a, xs[..m + 1]);
    FoldLast(f, b, ys[..n + 1]);
    FoldConcat(f, a, xs[..m + 1], xs[m + 1..]);
    FoldConcat(f, b, ys[..n + 1], ys[n + 1..]);
  }

  // ---------- runs into a tree ----------

  /** The run passes through a leaf: it starts there, or below it. */
  ghost predicate Passes<H>(f: (H, H) -> H, a: H, xs: seq<H>, h: H) {
    exists m :: 0 <= m <= |xs| && Fold(f, a, xs[..m]) == h
  }

  /**
   * How a run ends in the root of a tree: through leaf `i`, or from an inner node that hashes `bytes`, or with a
   * collision.
   */
  datatype Landing = AtLeaf(i: nat) | AtNode(bytes: seq<byte>) | Collision(u: seq<byte>, v: seq<byte>)

  ghost predicate Lands(sha: Sha, s: seq<Digest>, a: Digest, xs: seq<Digest>, l: Landing) {
    match l
    case AtLeaf(i) => i < |s| && Passes(Joiner(sha), a, xs, s[i])
    case AtNode(bytes) => a == sha(bytes) && |bytes| == 64
    case Collision(u, v) => Collide(sha, u, v)
  }

  lemma {:induction false} PassesEnd<H>(f: (H, H) -> H, a: H, xs: seq<H>, h: H)
    requires Fold(f, a, xs) == h
    ensures Passes(f, a, xs, h)
  {
    hide Fold;
    assert xs[..|xs|] == xs;
  }

  lemma {:induction false} PassesOn<H>(f: (H, H) -> H, a: H, xs: seq<H>, h: H)
    requires xs != [] && Passes(f, a, xs[..|xs| - 1], h)
    ensures Passes(f, a, xs, h)
  {
    hide Fold;
    var p := xs[..|xs| - 1];
    var m :| 0 <= m <= |p| && Fold(f, a, p[..m]) == h;
    assert p[..m] == xs[..m];
  }

  lemma MthSplit<H>(f: (H, H) -> H, s: seq<H>)
    requires |s| > 1
    ensures 0 < SplitPoint(|s|) < |s|
    ensures Mth(f, s) == f(Mth(f, s[..SplitPoint(|s|)]), Mth(f, s[SplitPoint(|s|)..]))
  {
  }

  /** Every run that ends in the root of a tree lands. */
  lemma {:induction false} Land(sha: Sha, s: seq<Digest>, a: Digest, xs: seq<Digest>) returns (l: Landing)
    requires |s| > 0 && Fold(Joiner(sha), a, xs) == Mth(Joiner(sha), s)
    ensures Lands(sha, s, a, xs, l)
    decreases |s|
  {
    var f := Joiner(sha);
    if |s| == 1 {
      PassesEnd(f, a, xs, s[0]);
      return AtLeaf(0);
    }
    MthSplit(f, s);
    hide Mth, Fold, Joiner, Pair, Collide, Passes, SplitPoint;
    var k := SplitPoint(|s|);
    var left, right := Mth(f, s[..k]), Mth(f, s[k..]);
    if xs == [] {
      FoldNone(f, a);
      PairIs(sha, left, right);
      return AtNode(Pair(left, right));
    }
    var p, x := xs[..|xs| - 1], xs[|xs| - 1];
    FoldLast(f, a, xs);
    JoinsMeet(sha, Fold(f, a, p), x, left, right);
    if Collide(sha, Pair(Fold(f, a, p), x), Pair(left, right)) {
      l := Collision(Pair(Fold(f, a, p), x), Pair(left, right));
    } else if Fold(f, a, p) == left {
      l := Land(sha, s[..k], a, p);
      if l.AtLeaf? {
        PassesOn(f, a, xs, s[l.i]);
      }
    } else {
      l := Land(sha, s[k..], a, p);
      if l.AtLeaf? {
        PassesOn(f, a, xs, s[k + l.i]);
        l := AtLeaf(k + l.i);
      }
    }
  }
}
