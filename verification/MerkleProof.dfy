/** Folding the logged hashes along `hashpath` gives the root, for every size and index. */
module MerkleProof {
  import opened Binary
  import opened MerkleTree
  import opened MerkleLog
  import opened HashPath

  /** `hashpathrun` after its first element. */
  function Fold<H>(f: (H, H) -> H, acc: H, xs: seq<H>): H {
    if xs == [] then acc else Fold(f, f(acc, xs[0]), xs[1..])
  }

  lemma {:induction false} FoldConcat<H>(f: (H, H) -> H, acc: H, xs: seq<H>, ys: seq<H>)
    ensures Fold(f, acc, xs + ys) == Fold(f, Fold(f, acc, xs), ys)
  {
    if xs == [] {
      assert xs + ys == ys;
    } else {
      FoldConcat(f, f(acc, xs[0]), xs[1..], ys);
      assert (xs + ys)[1..] == xs[1..] + ys;
    }
  }

  /** The hash a node holds; an index past the end of its level means the last entry. */
  function Node<H>(f: (H, H) -> H, s: seq<H>, id: Id): H
    requires |s| > 0
  {
    var l := Level(f, s, id.level);
    if id.index < |l| then l[id.index] else l[|l| - 1]
  }

  function Values<H>(f: (H, H) -> H, s: seq<H>, ids: seq<Id>): (v: seq<H>)
    requires |s| > 0
    ensures |v| == |ids|
  {
    seq(|ids|, i requires 0 <= i < |ids| => Node(f, s, ids[i]))
  }

  lemma {:induction false} NodeIs<H>(f: (H, H) -> H, s: seq<H>, t: nat, x: nat)
    requires |s| > 0 && x <= Shr(|s| - 1, t)
    ensures x < |Level(f, s, t)| && Node(f, s, Id(t, x)) == Level(f, s, t)[x]
  {
    hide Shr, Level;
  }

  /** How a node comes from the level below. */
  lemma {:induction false} Parent<H>(f: (H, H) -> H, s: seq<H>, t: nat, x: nat)
    requires |s| > 0 && x <= Shr(|s| - 1, t)
    ensures x / 2 <= Shr(|s| - 1, t + 1)
    ensures Node(f, s, Id(t + 1, x / 2)) ==
      if x % 2 == 1 then f(Node(f, s, Id(t, x - 1)), Node(f, s, Id(t, x)))
      else if x < Shr(|s| - 1, t) then f(Node(f, s, Id(t, x)), Node(f, s, Id(t, x + 1)))
      else Node(f, s, Id(t, x))
  {
    hide Shr, Level, Node;
    ShrStep(|s| - 1, t);
    LevelStep(f, s, t);
    NodeIs(f, s, t + 1, x / 2);
    NodeIs(f, s, t, x);
    if x % 2 == 1 {
      NodeIs(f, s, t, x - 1);
    } else if x < Shr(|s| - 1, t) {
      NodeIs(f, s, t, x + 1);
    }
  }

  /** The ancestors of the last entry hold the incomplete edge at every level. */
  lemma {:induction false} EdgeValue<H>(f: (H, H) -> H, s: seq<H>, x: nat, u: nat, k: nat)
    requires |s| > 0 && x == Shr(|s| - 1, u)
    ensures LowPop(x, k) < |[Id(u, x)] + Ancestors(x, u)|
    ensures Node(f, s, ([Id(u, x)] + Ancestors(x, u))[LowPop(x, k)]) == Node(f, s, Id(u + k, Shr(x, k)))
    decreases k
  {
    hide *;
    if k == 0 {
      BitsZero(x);
    } else {
      BitsDef(x, k);
      ShrStep(|s| - 1, u);
      Parent(f, s, u, x);
      EdgeValue(f, s, x / 2, u + 1, k - 1);
      AncestorsStep(x / 2, u);
      if x % 2 == 1 {
        assert x == 2 * (x / 2) + 1;
      } else {
        assert x == 2 * (x / 2);
      }
    }
  }

  lemma {:induction false} CompleteValue<H>(f: (H, H) -> H, s: seq<H>, t: nat, h: nat)
    requires |s| > 0 && h < Shr(|s|, t)
    ensures 0 <= Pos(t, h) < |FullLog(|s|)| && FullLog(|s|)[Pos(t, h)] == Id(t, h)
  {
    hide *;
    var m := |s|;
    ShrIsDiv(m, t);
    MulLe(h + 1, Shr(m, t), Pow2(t));
    PosLaw(m, t, h);
    FullLogFacts(m);
  }

  lemma {:induction false} IncompleteValue<H>(f: (H, H) -> H, s: seq<H>, t: nat)
    requires |s| > 0 && LowPop(|s|, t) > 0
    ensures Shr(|s|, t) == Shr(|s| - 1, t)
    ensures 0 <= EdgePos(|s|, t) < |FullLog(|s|)|
    ensures Node(f, s, FullLog(|s|)[EdgePos(|s|, t)]) == Node(f, s, Id(t, Shr(|s|, t)))
  {
    hide Full, FullLog, Ancestors, Pop, LowPop, Shr, Level, Node;
    var m := |s|;
    ShrPred(m, t);
    FullLogFacts(m);
    PopBound(m - 1);
    BitsZero(m - 1);
    EdgeValue(f, s, m - 1, 0, t);
    assert EdgePos(m, t) == 2 * m - 2 - Pop(m - 1) + LowPop(m - 1, t);
  }

  /** Hashing a node with what its sibling position holds gives its parent. */
  lemma {:induction false} SiblingJoins<H(!new)>(f: (H, H) -> H, s: seq<H>, h: nat, t: nat)
    requires |s| > 0 && Commutative(f)
    requires h <= Shr(|s| - 1, t) && Shr(|s| - 1, t) > 0
    ensures var sib := Sibling(|s|, h, t); var here := Node(f, s, Id(t, h));
      && |sib| <= 1
      && (|sib| == 1 ==> 0 <= sib[0] < |FullLog(|s|)|)
      && Node(f, s, Id(t + 1, h / 2)) ==
           if sib == [] then here else f(here, Node(f, s, FullLog(|s|)[sib[0]]))
  {
    hide Full, FullLog, Pos, EdgePos, Pop, LowPop, Shr, Level, Node;
    var m := |s|;
    Parent(f, s, t, h);
    LevelSizes(m, t);
    if h % 2 == 1 {
      CompleteValue(f, s, t, h - 1);
    } else if h + 1 < Shr(m, t) {
      CompleteValue(f, s, t, h + 1);
    } else if h + 1 == Shr(m, t) && LowPop(m, t) > 0 {
      IncompleteValue(f, s, t);
    }
  }

  ghost predicate InRange(ps: seq<int>, n: nat) {
    forall i :: 0 <= i < |ps| ==> 0 <= ps[i] < n
  }

  function Lookup<H>(xs: seq<H>, ps: seq<int>): (v: seq<H>)
    requires InRange(ps, |xs|)
    ensures |v| == |ps|
  {
    seq(|ps|, i requires 0 <= i < |ps| => xs[ps[i]])
  }

  lemma {:induction false} LookupConcat<H>(xs: seq<H>, a: seq<int>, b: seq<int>)
    requires InRange(a, |xs|) && InRange(b, |xs|)
    ensures InRange(a + b, |xs|) && Lookup(xs, a + b) == Lookup(xs, a) + Lookup(xs, b)
  {
  }

  lemma {:induction false} FoldShort<H>(f: (H, H) -> H, acc: H, xs: seq<H>)
    requires |xs| <= 1
    ensures Fold(f, acc, xs) == if xs == [] then acc else f(acc, xs[0])
  {
    if xs != [] {
      assert xs[1..] == [];
    }
  }

  lemma {:induction false} FoldSibling<H(!new)>(f: (H, H) -> H, s: seq<H>, h: nat, t: nat)
    requires |s| > 0 && Commutative(f)
    requires h <= Shr(|s| - 1, t) && Shr(|s| - 1, t) > 0
    ensures var sib := Sibling(|s|, h, t); var log := Values(f, s, FullLog(|s|));
      && InRange(sib, |log|)
      && Fold(f, Node(f, s, Id(t, h)), Lookup(log, sib)) == Node(f, s, Id(t + 1, h / 2))
  {
    hide FullLog, Sibling, Shr, Node, Fold;
    SiblingJoins(f, s, h, t);
    var sib := Sibling(|s|, h, t);
    FoldShort(f, Node(f, s, Id(t, h)), Lookup(Values(f, s, FullLog(|s|)), sib));
  }

  /** The path law: folding the hashes at `PathPositions` gives the RFC 6962 root. */
  lemma {:induction false} PathFolds<H(!new)>(f: (H, H) -> H, s: seq<H>, h: nat, t: nat)
    requires |s| > 0 && Commutative(f) && h <= Shr(|s| - 1, t)
    ensures var ps := PathPositions(|s|, h, t); var log := Values(f, s, FullLog(|s|));
      && InRange(ps, |log|)
      && Fold(f, Node(f, s, Id(t, h)), Lookup(log, ps)) == Mth(f, s)
    decreases Shr(|s| - 1, t)
  {
    hide Pow2, FullLog, Sibling, Shr, Mth, Level, Node, Fold, PathPositions;
    var m := |s|;
    var log := Values(f, s, FullLog(m));
    var here := Node(f, s, Id(t, h));
    if Shr(m - 1, t) == 0 {
      PathEnds(m, h, t);
      TopIsRoot(f, s, t);
      NodeIs(f, s, t, h);
      FoldShort(f, here, []);
      assert Lookup(log, []) == [];
    } else {
      var sib, rest := Sibling(m, h, t), PathPositions(m, h / 2, t + 1);
      ShrStep(m - 1, t);
      PathStep(m, h, t);
      FoldSibling(f, s, h, t);
      PathFolds(f, s, h / 2, t + 1);
      LookupConcat(log, sib, rest);
      FoldConcat(f, here, Lookup(log, sib), Lookup(log, rest));
    }
  }
}
