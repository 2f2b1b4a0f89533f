/**
 * Reading an inclusion proof back from what is stored: the leaves and the log without its root.
 * For an odd count the log also lacks the lone last leaf, and positions are moved around it.
 */
module StoredProof {
  import opened Binary
  import opened MerkleTree
  import opened MerkleLog
  import opened HashPath
  import opened MerkleProof

  // ---------- no path reaches the root ----------

  lemma {:induction false} PosBelowRoot(m: nat, t: nat, h: nat)
    requires m > 0 && h < Shr(m, t) && Shr(m - 1, t) > 0
    ensures Pos(t, h) < 2 * m - 2
  {
    hide *;
    PopPositive(h);
    var x := (h + 1) * Pow2(t);
    ShrIsDiv(m, t);
    MulLe(h + 1, Shr(m, t), Pow2(t));
    PosIs(t, h, x);
    if h == 0 && x == m {
      ShrZero(m - 1, t);
    }
  }

  lemma {:induction false} EdgeBelowRoot(m: nat, t: nat)
    requires Shr(m, t) > 0
    ensures EdgePos(m, t) < 2 * m - 2
  {
    hide Shr, Pop, LowPop;
    PopPositive(Shr(m, t));
    PopSplit(m, t);
  }

  lemma {:induction false} SiblingBelowRoot(m: nat, h: nat, t: nat)
    requires m > 0 && h <= Shr(m - 1, t) && Shr(m - 1, t) > 0
    ensures forall i :: 0 <= i < |Sibling(m, h, t)| ==> Sibling(m, h, t)[i] < 2 * m - 2
  {
    hide Shr, Pos, EdgePos, LowPop;
    LevelSizes(m, t);
    if h % 2 == 1 {
      PosBelowRoot(m, t, h - 1);
    } else if h + 1 < Shr(m, t) {
      PosBelowRoot(m, t, h + 1);
    } else if h + 1 == Shr(m, t) {
      EdgeBelowRoot(m, t);
    }
  }

  lemma {:induction false} PathBelowRoot(m: nat, h: nat, t: nat)
    requires m > 0 && h <= Shr(m - 1, t)
    ensures forall i :: 0 <= i < |PathPositions(m, h, t)| ==> PathPositions(m, h, t)[i] < 2 * m - 2
    decreases Shr(m - 1, t)
  {
    hide Shr, Sibling, PathPositions;
    if Shr(m - 1, t) == 0 {
      PathEnds(m, h, t);
    } else {
      ShrStep(m - 1, t);
      PathStep(m, h, t);
      SiblingBelowRoot(m, h, t);
      PathBelowRoot(m, h / 2, t + 1);
    }
  }

  // ---------- the proof of a leaf ----------

  lemma {:induction false} PathFits(m: nat, j: nat)
    requires j < m
    ensures InRange(PathPositions(m, j, 0), 2 * m - 2)
  {
    hide *;
    BitsZero(m - 1);
    PathBelowRoot(m, j, 0);
    PathNonnegative(m, j, 0);
    InRangeOf(PathPositions(m, j, 0), 2 * m - 2);
  }

  lemma InRangeOf(ps: seq<int>, n: nat)
    requires forall i :: 0 <= i < |ps| ==> ps[i] < n
    requires forall i :: 0 <= i < |ps| ==> 0 <= ps[i]
    ensures InRange(ps, n)
  {
  }

  lemma {:induction false} PathNonnegative(m: nat, h: nat, t: nat)
    requires m > 0 && h <= Shr(m - 1, t)
    ensures forall i :: 0 <= i < |PathPositions(m, h, t)| ==> 0 <= PathPositions(m, h, t)[i]
    decreases Shr(m - 1, t)
  {
    hide Shr, Sibling, PathPositions;
    if Shr(m - 1, t) == 0 {
      PathEnds(m, h, t);
    } else {
      ShrStep(m - 1, t);
      PathStep(m, h, t);
      SiblingNonnegative(m, h, t);
      PathNonnegative(m, h / 2, t + 1);
    }
  }

  lemma {:induction false} SiblingNonnegative(m: nat, h: nat, t: nat)
    requires m > 0 && h <= Shr(m - 1, t) && Shr(m - 1, t) > 0
    ensures forall i :: 0 <= i < |Sibling(m, h, t)| ==> 0 <= Sibling(m, h, t)[i]
  {
    hide Shr, Pos, EdgePos, LowPop, Pop;
    LevelSizes(m, t);
    if h % 2 == 1 {
      PosNonnegative(t, h - 1);
    } else if h + 1 < Shr(m, t) {
      PosNonnegative(t, h + 1);
    } else if h + 1 == Shr(m, t) && LowPop(m, t) > 0 {
      if m == 1 {
        ShrZero(0, t);
      }
      EdgeCursorStep(m, t);
    }
  }

  /** Siblings of pair `j` in the tree over the pairs. */
  function PairPath<H>(f: (H, H) -> H, leaves: seq<H>, j: nat): seq<H>
    requires j < |Up(f, leaves)|
  {
    var pairs := Up(f, leaves);
    FullLogFacts(|pairs|);
    PathFits(|pairs|, j);
    Lookup(Values(f, pairs, FullLog(|pairs|)), PathPositions(|pairs|, j, 0))
  }

  /** The other leaf of the pair of leaf `i`, unless `i` is a lone last leaf. */
  function PairSibling<H>(leaves: seq<H>, i: nat): seq<H>
    requires i < |leaves|
  {
    if i % 2 == 1 then [leaves[i - 1]]
    else if i + 1 < |leaves| then [leaves[i + 1]]
    else []
  }

  /** The hashes that lead from leaf `i` to the root: the rest of its pair and the path of the pair. */
  function ChainTail<H>(f: (H, H) -> H, leaves: seq<H>, i: nat): seq<H>
    requires i < |leaves|
  {
    PairSibling(leaves, i) + PairPath(f, leaves, i / 2)
  }

  /** The inclusion proof of leaf `i`. */
  function Chain<H>(f: (H, H) -> H, leaves: seq<H>, i: nat): seq<H>
    requires i < |leaves|
  {
    [leaves[i]] + ChainTail(f, leaves, i)
  }

  /** `hashpathrun`. */
  function Run<H>(f: (H, H) -> H, hashes: seq<H>): H
    requires |hashes| > 0
  {
    Fold(f, hashes[0], hashes[1..])
  }

  /** Every leaf is proved against the root: the inclusion theorem. */
  lemma {:induction false} TailProves<H(!new)>(f: (H, H) -> H, leaves: seq<H>, i: nat)
    requires Commutative(f) && i < |leaves|
    ensures Fold(f, leaves[i], ChainTail(f, leaves, i)) == Mth(f, leaves)
  {
    hide Fold, Shr, Mth, PairPath, Node, PathPositions, FullLog;
    var pairs := Up(f, leaves);
    var sib, path := PairSibling(leaves, i), PairPath(f, leaves, i / 2);
    FoldConcat(f, leaves[i], sib, path);
    FoldShort(f, leaves[i], sib);
    assert Fold(f, leaves[i], sib) == pairs[i / 2];
    PairPathFolds(f, leaves, i / 2);
    MthUp(f, leaves);
  }

  lemma {:induction false} ChainProves<H(!new)>(f: (H, H) -> H, leaves: seq<H>, i: nat)
    requires Commutative(f) && i < |leaves|
    ensures Run(f, Chain(f, leaves, i)) == Mth(f, leaves)
  {
    hide Fold, Mth, ChainTail;
    TailProves(f, leaves, i);
    assert Chain(f, leaves, i)[1..] == ChainTail(f, leaves, i);
  }

  /** A proof that ends at a leaf continues along the path of that leaf to the root. */
  lemma {:induction false} ChainContinues<H(!new)>(f: (H, H) -> H, hashes: seq<H>, leaves: seq<H>, i: nat)
    requires Commutative(f) && i < |leaves| && hashes != [] && Run(f, hashes) == leaves[i]
    ensures Run(f, hashes + ChainTail(f, leaves, i)) == Mth(f, leaves)
  {
    hide Fold, Mth, ChainTail;
    TailProves(f, leaves, i);
    var tail := ChainTail(f, leaves, i);
    assert (hashes + tail)[1..] == hashes[1..] + tail;
    FoldConcat(f, hashes[0], hashes[1..], tail);
  }

  lemma {:induction false} PairPathFolds<H(!new)>(f: (H, H) -> H, leaves: seq<H>, j: nat)
    requires Commutative(f) && |leaves| > 0 && j < |Up(f, leaves)|
    ensures Fold(f, Up(f, leaves)[j], PairPath(f, leaves, j)) == Mth(f, Up(f, leaves))
  {
    hide Fold, Shr, Mth, Up, Node, PathPositions, FullLog;
    var pairs := Up(f, leaves);
    BitsZero(|pairs| - 1);
    FullLogFacts(|pairs|);
    PathFolds(f, pairs, j, 0);
    LevelZero(f, pairs, j);
  }

  lemma LevelZero<H>(f: (H, H) -> H, s: seq<H>, j: nat)
    requires j < |s|
    ensures Node(f, s, Id(0, j)) == s[j]
  {
  }

  // ---------- reading it back ----------

  /** Where a hash is stored: in the log without the root, or as the hash of the last leaf. */
  datatype Place = Logged(at: int) | LastLeaf

  /** The place of position `p` of the pair log when `n` leaves were stored. */
  function TruePlace(n: nat, p: int): Place {
    var lone := 2 * (n / 2) - Pop(n / 2);
    if n % 2 == 0 || p < lone then Logged(p)
    else if p == lone then LastLeaf
    else Logged(p - 1)
  }

  /** The place the code reads: for even counts the special position is "just a large number". */
  function ReadPlace(n: nat, p: int): Place {
    var m := if n % 2 == 1 then 2 * (n / 2) - Pop(n / 2) else 32 * 32;
    if p < m then Logged(p)
    else if p == m then LastLeaf
    else Logged(p - 1)
  }

  /** The code reads the right place exactly for odd counts and for positions below 1024. */
  lemma ReadsRightIff(n: nat, p: int)
    ensures ReadPlace(n, p) == TruePlace(n, p) <==> n % 2 == 1 || p < 1024
  {
    hide Pop;
  }

  /** The log as stored, its root dropped. */
  function Kept<H>(f: (H, H) -> H, leaves: seq<H>): (r: seq<H>)
    requires |leaves| > 1
    ensures |r| == |leaves| - 2
  {
    InnerLogSize(|leaves|);
    Values(f, leaves, InnerLog(|leaves|))[..|leaves| - 2]
  }

  lemma {:induction false} InnerLogSize(n: nat)
    requires n > 0
    ensures |InnerLog(n)| == n - 1
  {
    hide Inner, Ancestors, Pop;
    LogSizes(n - 1);
    AncestorsSize(n - 1, 0);
  }

  predicate InStore(n: nat, place: Place) {
    place.Logged? ==> 0 <= place.at < n - 2
  }

  function Stored<H>(f: (H, H) -> H, leaves: seq<H>, place: Place): H
    requires |leaves| > 1 && InStore(|leaves|, place)
  {
    match place
    case Logged(at) => Kept(f, leaves)[at]
    case LastLeaf => leaves[|leaves| - 1]
  }

  lemma {:induction false} RaisedValues<H>(f: (H, H) -> H, s: seq<H>, ids: seq<Id>)
    requires |s| > 0
    ensures Values(f, s, Raise(ids)) == Values(f, Up(f, s), ids)
  {
    forall i | 0 <= i < |ids|
      ensures Node(f, s, Raise(ids)[i]) == Node(f, Up(f, s), ids[i])
    {
      LevelShift(f, s, ids[i].level);
    }
  }

  lemma {:induction false} EvenPlace<H>(f: (H, H) -> H, leaves: seq<H>)
    requires |leaves| > 1 && |leaves| % 2 == 0
    ensures Values(f, leaves, InnerLog(|leaves|)) == Values(f, Up(f, leaves), FullLog(|Up(f, leaves)|))
  {
    hide *;
    EvenLog(|Up(f, leaves)|);
    RaisedValues(f, leaves, FullLog(|Up(f, leaves)|));
  }

  /** For an odd count the log of the leaves is the log of the pairs without the pair that is a single leaf. */
  lemma {:induction false} OddInner<H>(f: (H, H) -> H, leaves: seq<H>, half: nat)
    requires half > 0 && |leaves| == 2 * half + 1
    ensures |Up(f, leaves)| == half + 1 && |FullLog(half + 1)| == |leaves|
    ensures var at := 2 * half - Pop(half);
      && 0 <= at < |leaves| - 1 && FullLog(half + 1)[at] == Id(0, half)
      && Values(f, leaves, InnerLog(|leaves|)) == Values(f, Up(f, leaves), Without(FullLog(half + 1), at))
  {
    hide *;
    FullLogFacts(half + 1);
    PopPositive(half);
    OddLog(half);
    RaisedValues(f, leaves, Without(FullLog(half + 1), 2 * half - Pop(half)));
  }

  lemma {:induction false} OddPlace<H>(f: (H, H) -> H, leaves: seq<H>, p: int)
    requires |leaves| > 1 && |leaves| % 2 == 1 && 0 <= p < |leaves|
    ensures var at := 2 * (|leaves| / 2) - Pop(|leaves| / 2); var m := |Up(f, leaves)|;
      var log := Values(f, Up(f, leaves), FullLog(m)); var inner := Values(f, leaves, InnerLog(|leaves|));
      && 0 <= at < |leaves| - 1 && |log| == |leaves| && |inner| == |leaves| - 1
      && log[p] == if p < at then inner[p] else if p == at then leaves[|leaves| - 1] else inner[p - 1]
  {
    hide *;
    var half := |leaves| / 2;
    OddInner(f, leaves, half);
    LonePair(f, leaves);
    ValuesWithout(f, Up(f, leaves), FullLog(half + 1), 2 * half - Pop(half), p);
  }

  /** Taking out one entry of a log moves the values behind it up by one. */
  lemma {:induction false} ValuesWithout<H>(f: (H, H) -> H, s: seq<H>, ids: seq<Id>, at: nat, p: nat)
    requires |s| > 0 && at < |ids| && p < |ids|
    ensures var rest := Without(ids, at); var full, less := Values(f, s, ids), Values(f, s, rest);
      && |full| == |ids| && |less| == |ids| - 1
      && full[p] == if p < at then less[p] else if p == at then Node(f, s, ids[at]) else less[p - 1]
  {
    hide Node;
    var rest := Without(ids, at);
    assert p < at ==> rest[p] == ids[p];
    assert p > at ==> rest[p - 1] == ids[p];
  }

  /** Every position of the pair log below the root is stored at its true place. */
  lemma {:induction false} TruePlaceHolds<H>(f: (H, H) -> H, leaves: seq<H>, p: int)
    requires |leaves| > 1 && 0 <= p < 2 * |Up(f, leaves)| - 2
    ensures InStore(|leaves|, TruePlace(|leaves|, p))
    ensures |FullLog(|Up(f, leaves)|)| == 2 * |Up(f, leaves)| - 1
    ensures Stored(f, leaves, TruePlace(|leaves|, p))
      == Values(f, Up(f, leaves), FullLog(|Up(f, leaves)|))[p]
  {
    hide Pop, InnerLog, FullLog, Values, Up;
    FullLogFacts(|Up(f, leaves)|);
    InnerLogSize(|leaves|);
    if |leaves| % 2 == 0 {
      EvenPlace(f, leaves);
    } else {
      OddPlace(f, leaves, p);
    }
  }

  lemma LonePair<H>(f: (H, H) -> H, leaves: seq<H>)
    requires |leaves| % 2 == 1
    ensures Node(f, Up(f, leaves), Id(0, |leaves| / 2)) == leaves[|leaves| - 1]
  {
    LevelZero(f, Up(f, leaves), |leaves| / 2);
  }

  // ---------- the limit of the even remap ----------

  ghost predicate Late(ps: seq<int>) {
    exists k :: 0 <= k < |ps| && ps[k] >= 1024
  }

  lemma LateConcat(a: seq<int>, b: seq<int>)
    ensures Late(a + b) <==> Late(a) || Late(b)
  {
    if k :| 0 <= k < |a| && a[k] >= 1024 {
      assert (a + b)[k] >= 1024;
    }
    if k :| 0 <= k < |b| && b[k] >= 1024 {
      assert (a + b)[|a| + k] >= 1024;
    }
  }

  /** A complete node sits behind the first 1024 entries exactly when 513 elements do not complete it. */
  lemma {:induction false} LateIff(t: nat, x: nat)
    ensures Pos(t, x) >= 1024 <==> x >= Shr(513, t)
  {
    Pop513();
    hide *;
    CompleteIff(513, t, x);
  }

  lemma Pop513()
    ensures Pop(513) == 2
  {
    assert Pop(8) == 1 && Pop(16) == 1 && Pop(32) == 1 && Pop(64) == 1 && Pop(128) == 1 && Pop(256) == 1;
  }

  /** The last node of a level, as the sibling of the node before it. */
  lemma {:induction false} LateEdge(m: nat, h: nat, t: nat)
    requires m >= 514 && h % 2 == 0 && h + 1 == Shr(m - 1, t)
    ensures Late(Sibling(m, h, t))
  {
    Pop513();
    hide Shr, Pop, LowPop, Pow2, Pos;
    LevelSizes(m, t);
    if LowPop(m, t) == 0 {
      ShrMonotone(513, m - 1, t);
      LateIff(t, h + 1);
      assert Sibling(m, h, t)[0] >= 1024;
    } else {
      DoubleLessPop(513, m);
      assert Sibling(m, h, t)[0] >= 1024;
    }
  }

  /** A node that does not cover the last element, or covers more than element 513, has a late sibling above it. */
  lemma {:induction false} LatePath(m: nat, h: nat, t: nat)
    requires m >= 514 && h <= Shr(m - 1, t) && (h < Shr(m - 1, t) || h > Shr(513, t))
    ensures Late(PathPositions(m, h, t))
    decreases Shr(m - 1, t)
  {
    hide Shr, Sibling, PathPositions, Late, Pos;
    ShrStep(m - 1, t);
    ShrStep(513, t);
    PathStep(m, h, t);
    LateConcat(Sibling(m, h, t), PathPositions(m, h / 2, t + 1));
    var last := Shr(m - 1, t);
    if h % 2 == 0 && h + 1 == last {
      LateEdge(m, h, t);
    } else if h % 2 == 1 && h == last && h - 1 == Shr(513, t) {
      LateIff(t, h - 1);
      OddSibling(m, h, t);
    } else {
      LatePath(m, h / 2, t + 1);
    }
  }

  lemma OddSibling(m: nat, h: nat, t: nat)
    requires h % 2 == 1 && Pos(t, h - 1) >= 1024
    ensures Late(Sibling(m, h, t))
  {
    hide Pos;
    assert Sibling(m, h, t)[0] >= 1024;
  }

  /** The path of the last of 514 pairs stays within the first 1024 entries. */
  lemma {:induction false} EarlyPath(t: nat)
    ensures !Late(PathPositions(514, Shr(513, t), t))
    decreases Shr(513, t)
  {
    hide Shr, PathPositions, Pos, LowPop, Late;
    var h := Shr(513, t);
    if h == 0 {
      PathEnds(514, h, t);
      EarlySibling(t);
    } else {
      ShrStep(513, t);
      PathStep(514, h, t);
      EarlySibling(t);
      EarlyPath(t + 1);
      LateConcat(Sibling(514, h, t), PathPositions(514, h / 2, t + 1));
    }
  }

  lemma {:induction false} EarlySibling(t: nat)
    ensures !Late(Sibling(514, Shr(513, t), t)) && !Late([])
  {
    hide Shr, Pos, LowPop;
    var h := Shr(513, t);
    LevelSizes(514, t);
    if h % 2 == 1 {
      LateIff(t, h - 1);
    }
  }

  /** Every position of leaf `i` of `n` is read from its true place. */
  ghost predicate ReadsBack(n: nat, i: nat)
    requires i < n
  {
    var ps := PathPositions((n + 1) / 2, i / 2, 0);
    forall k :: 0 <= k < |ps| ==> ReadPlace(n, ps[k]) == TruePlace(n, ps[k])
  }

  /** What a caller can tell of leaf `i` of `n` beforehand. */
  predicate Readable(n: nat, i: nat) {
    n % 2 == 1 || n <= 1026 || (n == 1028 && i >= 1026)
  }

  /** For an even count a leaf is read back exactly when its path stays within the first 1024 entries. */
  lemma {:induction false} EvenReadsBack(n: nat, i: nat)
    requires i < n && n % 2 == 0
    ensures ReadsBack(n, i) <==> !Late(PathPositions(n / 2, i / 2, 0))
  {
    hide PathPositions, ReadPlace, TruePlace;
    var ps := PathPositions(n / 2, i / 2, 0);
    assert (n + 1) / 2 == n / 2;
    forall k | 0 <= k < |ps| ensures ReadPlace(n, ps[k]) == TruePlace(n, ps[k]) <==> ps[k] < 1024 {
      ReadsRightIff(n, ps[k]);
    }
  }

  /** Exactly the leaves of odd counts and of up to 1026, and the last two of 1028, are read back. */
  lemma {:induction false} ReadsBackAt(n: nat, i: nat)
    requires i < n
    ensures ReadsBack(n, i) <==> Readable(n, i)
  {
    hide PathPositions, ReadPlace, TruePlace, ReadsBack, Late, Shr;
    if n % 2 == 1 || n <= 1026 {
      ReadsBackSmall(n, i);
    } else {
      var m, h := n / 2, i / 2;
      EvenReadsBack(n, i);
      BitsZero(m - 1);
      BitsZero(513);
      if m == 514 && h == 513 {
        EarlyPath(0);
      } else {
        LatePath(m, h, 0);
      }
    }
  }

  /** The stored proofs of all leaves can be read back exactly for odd counts and up to 1026 leaves. */
  lemma {:induction false} ReadsBackIff(n: nat)
    requires n > 0
    ensures (forall i :: 0 <= i < n ==> ReadsBack(n, i)) <==> n % 2 == 1 || n <= 1026
  {
    hide ReadsBack;
    forall i | 0 <= i < n ensures ReadsBack(n, i) <==> Readable(n, i) {
      ReadsBackAt(n, i);
    }
    if n % 2 == 0 && n > 1026 {
      assert !ReadsBack(n, 0);
    }
  }

  lemma {:induction false} ReadsBackSmall(n: nat, i: nat)
    requires i < n && (n % 2 == 1 || n <= 1026)
    ensures ReadsBack(n, i)
  {
    hide PathPositions, ReadPlace, TruePlace;
    var m := (n + 1) / 2;
    PathFits(m, i / 2);
    var ps := PathPositions(m, i / 2, 0);
    forall k | 0 <= k < |ps| ensures ReadPlace(n, ps[k]) == TruePlace(n, ps[k]) {
      ReadsRightIff(n, ps[k]);
    }
  }
}
