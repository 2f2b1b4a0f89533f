/** `class hashtree`: an incremental Merkle tree kept as a binary counter of complete subtrees. */
module HashTree {
  import opened Binary
  import opened MerkleTree
  import opened MerkleLog
  import opened MerkleProof
  import opened Digests

  // ---------- what one more leaf changes ----------

  /** Complete nodes do not change when leaves are added. */
  lemma {:induction false} LevelPrefix<H>(f: (H, H) -> H, a: seq<H>, b: seq<H>, t: nat)
    requires a <= b
    ensures Shr(|a|, t) <= |Level(f, a, t)| && Shr(|a|, t) <= |Level(f, b, t)|
    ensures Level(f, a, t)[..Shr(|a|, t)] == Level(f, b, t)[..Shr(|a|, t)]
  {
    if t > 0 {
      LevelPrefix(f, a, b, t - 1);
      ShrStep(|a|, t - 1);
      LevelStep(f, a, t - 1);
      LevelStep(f, b, t - 1);
      hide Level, Shr;
      UpPrefix(f, Level(f, a, t - 1), Level(f, b, t - 1), Shr(|a|, t - 1));
    }
  }

  lemma UpPrefix<H>(f: (H, H) -> H, a: seq<H>, b: seq<H>, q: nat)
    requires q <= |a| && q <= |b| && a[..q] == b[..q]
    ensures Up(f, a)[..q / 2] == Up(f, b)[..q / 2]
  {
    forall i | 0 <= i < q / 2
      ensures Up(f, a)[i] == Up(f, b)[i]
    {
      assert a[2 * i] == a[..q][2 * i] == b[..q][2 * i] == b[2 * i];
      assert a[2 * i + 1] == a[..q][2 * i + 1] == b[..q][2 * i + 1] == b[2 * i + 1];
    }
  }

  lemma {:induction false} NodeStable<H>(f: (H, H) -> H, s: seq<H>, v: H, t: nat, h: nat)
    requires h < Shr(|s|, t)
    ensures |s| > 0 && Node(f, s + [v], Id(t, h)) == Node(f, s, Id(t, h))
  {
    if |s| == 0 {
      ShrZero(0, t);
    }
    hide Level, Shr;
    LevelPrefix(f, s, s + [v], t);
    var q := Shr(|s|, t);
    assert Level(f, s, t)[h] == Level(f, s, t)[..q][h];
    assert Level(f, s + [v], t)[h] == Level(f, s + [v], t)[..q][h];
  }

  ghost predicate Complete(n: nat, ids: seq<Id>) {
    forall i :: 0 <= i < |ids| ==> ids[i].index < Shr(n, ids[i].level)
  }

  lemma {:induction false} ClimbComplete(n: nat, x: nat, t: nat)
    requires x < Shr(n, t)
    ensures Complete(n, Climb(x, t))
    decreases x
  {
    if x % 2 == 1 {
      ShrStep(n, t);
      ClimbComplete(n, x / 2, t + 1);
    }
  }

  lemma {:induction false} CompleteGrows(n: nat, ids: seq<Id>)
    requires Complete(n, ids)
    ensures Complete(n + 1, ids)
  {
    forall i | 0 <= i < |ids|
      ensures ids[i].index < Shr(n + 1, ids[i].level)
    {
      ShrMonotone(n, n + 1, ids[i].level);
    }
  }

  lemma {:induction false} InnerComplete(n: nat)
    ensures Complete(n, Inner(n))
  {
    if n > 0 {
      InnerComplete(n - 1);
      CompleteGrows(n - 1, Inner(n - 1));
      BitsZero(n);
      ClimbComplete(n, n - 1, 0);
      InnerStep(n - 1);
    }
  }

  lemma ValuesStable<H>(f: (H, H) -> H, s: seq<H>, v: H, ids: seq<Id>)
    requires |s| > 0 && Complete(|s|, ids)
    ensures Values(f, s + [v], ids) == Values(f, s, ids)
  {
    hide Node, Shr;
    forall i | 0 <= i < |ids|
      ensures Node(f, s + [v], ids[i]) == Node(f, s, ids[i])
    {
      NodeStable(f, s, v, ids[i].level, ids[i].index);
    }
  }

  lemma ValuesConcat<H>(f: (H, H) -> H, s: seq<H>, a: seq<Id>, b: seq<Id>)
    requires |s| > 0
    ensures Values(f, s, a + b) == Values(f, s, a) + Values(f, s, b)
  {
    hide Node;
  }

  // ---------- the counter ----------

  /** Level `i` holds the last complete subtree of its size exactly when bit `i` of the count is set. */
  ghost predicate Slot<H>(f: (H, H) -> H, s: seq<H>, i: nat, loaded: bool, value: H) {
    && loaded == (Shr(|s|, i) % 2 == 1)
    && (loaded ==> |s| > 0 && value == Node(f, s, Id(i, Shr(|s|, i) - 1)))
  }

  lemma {:induction false} CarryOn(n: nat, i: nat)
    requires Shr(n, i) % 2 == 1 && Shr(n + 1, i) == Shr(n, i) + 1
    ensures Shr(n + 1, i) % 2 == 0 && Shr(n + 1, i + 1) == Shr(n, i + 1) + 1
  {
    hide *;
    ShrStep(n, i);
    ShrStep(n + 1, i);
  }

  lemma {:induction false} CarryStops(n: nat, i: nat, j: nat)
    requires Shr(n, i) % 2 == 0 && Shr(n + 1, i) == Shr(n, i) + 1 && i < j
    ensures Shr(n + 1, j) == Shr(n, j)
  {
    hide *;
    ShrStep(n, j - 1);
    ShrStep(n + 1, j - 1);
    if i < j - 1 {
      CarryStops(n, i, j - 1);
    }
  }

  /** A slot above the place where the carry stops is still right. */
  lemma {:induction false} SlotStays<H>(f: (H, H) -> H, s: seq<H>, v: H, i: nat, j: nat, loaded: bool, value: H)
    requires Shr(|s|, i) % 2 == 0 && Shr(|s| + 1, i) == Shr(|s|, i) + 1 && i < j
    requires Slot(f, s, j, loaded, value)
    ensures Slot(f, s + [v], j, loaded, value)
  {
    hide Shr, Node;
    CarryStops(|s|, i, j);
    if loaded {
      NodeStable(f, s, v, j, Shr(|s|, j) - 1);
    }
  }

  /** Hashing a loaded slot with the carry gives the next carry and logs it. */
  lemma {:induction false} CarryStep<H>(f: (H, H) -> H, s: seq<H>, v: H, i: nat, value: H, carry: H, log: seq<H>)
    requires Slot(f, s, i, true, value)
    requires Shr(|s| + 1, i) == Shr(|s|, i) + 1
    requires carry == Node(f, s + [v], Id(i, Shr(|s|, i)))
    requires log + Values(f, s + [v], Climb(Shr(|s|, i), i)) == Values(f, s + [v], Inner(|s| + 1))
    ensures Shr(|s| + 1, i) % 2 == 0 && Shr(|s| + 1, i + 1) == Shr(|s|, i + 1) + 1
    ensures f(value, carry) == Node(f, s + [v], Id(i + 1, Shr(|s|, i + 1)))
    ensures log + [f(value, carry)] + Values(f, s + [v], Climb(Shr(|s|, i + 1), i + 1))
      == Values(f, s + [v], Inner(|s| + 1))
  {
    hide Shr, Node, Climb, Inner;
    var x := Shr(|s|, i);
    CarryOn(|s|, i);
    ShrStep(|s|, i);
    NodeStable(f, s, v, i, x - 1);
    Parent(f, s + [v], i, x);
    ClimbStep(x / 2, i);
    assert x == 2 * (x / 2) + 1;
    ValuesConcat(f, s + [v], [Id(i + 1, x / 2)], Climb(x / 2, i + 1));
    assert Values(f, s + [v], [Id(i + 1, x / 2)]) == [f(value, carry)];
  }

  lemma {:induction false} CarryStart<H>(f: (H, H) -> H, s: seq<H>, v: H, log: seq<H>)
    requires log == if s == [] then [] else Values(f, s, Inner(|s|))
    ensures Shr(|s| + 1, 0) == Shr(|s|, 0) + 1
    ensures v == Node(f, s + [v], Id(0, Shr(|s|, 0)))
    ensures log + Values(f, s + [v], Climb(Shr(|s|, 0), 0)) == Values(f, s + [v], Inner(|s| + 1))
  {
    assert Level(f, s + [v], 0) == s + [v];
    assert Inner(0) == [];
    hide Shr, Climb, Inner, Level;
    BitsZero(|s|);
    BitsZero(|s| + 1);
    InnerStep(|s|);
    hide Node;
    ValuesConcat(f, s + [v], Inner(|s|), Climb(|s|, 0));
    if |s| > 0 {
      InnerComplete(|s|);
      ValuesStable(f, s, v, Inner(|s|));
    }
  }

  lemma {:induction false} CarryEnd<H>(f: (H, H) -> H, s: seq<H>, v: H, i: nat, value: H, carry: H, log: seq<H>)
    requires Slot(f, s, i, false, value)
    requires Shr(|s| + 1, i) == Shr(|s|, i) + 1
    requires carry == Node(f, s + [v], Id(i, Shr(|s|, i)))
    requires log + Values(f, s + [v], Climb(Shr(|s|, i), i)) == Values(f, s + [v], Inner(|s| + 1))
    ensures Slot(f, s + [v], i, true, carry)
    ensures log == Values(f, s + [v], Inner(|s| + 1))
  {
    hide Shr, Node, Climb, Inner;
    ClimbStep(Shr(|s|, i) / 2, i);
    assert Shr(|s|, i) == 2 * (Shr(|s|, i) / 2);
  }

  lemma {:induction false} SlotEmpty<H>(f: (H, H) -> H, s: seq<H>, i: nat, value: H)
    requires Shr(|s|, i) % 2 == 0
    ensures Slot(f, s, i, false, value)
  {
  }

  // ---------- joining what is left ----------

  lemma {:induction false} ClimbThenAncestors(n: nat, t: nat, k: nat)
    requires n > 0 && LowPop(n, k) == 0 && Shr(n, k) % 2 == 1
    ensures Climb(n - 1, t) + Ancestors(Shr(n - 1, k), t + k) == Ancestors(n - 1, t)
    decreases k
  {
    hide *;
    ShrPred(n, k);
    if k == 0 {
      BitsZero(n);
      BitsZero(n - 1);
      ClimbStep((n - 1) / 2, t);
      assert n - 1 == 2 * ((n - 1) / 2);
    } else {
      BitsDef(n, k);
      BitsDef(n - 1, k);
      var h := n / 2;
      assert n % 2 == 0 && (n - 1) / 2 == h - 1 && n - 1 == 2 * (h - 1) + 1;
      ClimbThenAncestors(h, t + 1, k - 1);
      ClimbStep(h - 1, t);
      AncestorsStep(h - 1, t);
    }
  }

  /** `finish` starts from the lowest loaded slot. */
  lemma {:induction false} FinishStart<H>(f: (H, H) -> H, s: seq<H>, i: nat, value: H, log: seq<H>)
    requires LowPop(|s|, i) == 0 && Slot(f, s, i, true, value)
    requires |s| > 0 && log == Values(f, s, Inner(|s|))
    ensures LowPop(|s|, i + 1) > 0
    ensures value == Node(f, s, Id(i + 1, Shr(|s| - 1, i + 1)))
    ensures log + Values(f, s, Ancestors(Shr(|s| - 1, i + 1), i + 1)) == Values(f, s, InnerLog(|s|))
  {
    hide Shr, LowPop, Node, Climb, Inner, Ancestors;
    var n := |s|;
    var x := Shr(n - 1, i);
    LowPopStep(n, i);
    ShrPred(n, i);
    ShrStep(n - 1, i);
    Parent(f, s, i, x);
    AncestorsStep(x / 2, i);
    assert x == 2 * (x / 2);
    ClimbThenAncestors(n, 0, i);
    InnerStep(n - 1);
    ValuesConcat(f, s, Inner(n), Ancestors(x, i));
    assert Inner(n) + Ancestors(x, i) == Inner(n - 1) + (Climb(n - 1, 0) + Ancestors(x, i));
  }

  /** Each further loaded slot is hashed in and the result logged. */
  lemma {:induction false} FinishStep<H(!new)>(f: (H, H) -> H, s: seq<H>, i: nat, loaded: bool, value: H,
                                               acc: H, log: seq<H>)
    requires |s| > 0 && Commutative(f) && LowPop(|s|, i) > 0 && Slot(f, s, i, loaded, value)
    requires acc == Node(f, s, Id(i, Shr(|s| - 1, i)))
    requires log + Values(f, s, Ancestors(Shr(|s| - 1, i), i)) == Values(f, s, InnerLog(|s|))
    ensures LowPop(|s|, i + 1) > 0
    ensures var acc' := if loaded then f(acc, value) else acc;
      var log' := if loaded then log + [acc'] else log;
      && acc' == Node(f, s, Id(i + 1, Shr(|s| - 1, i + 1)))
      && log' + Values(f, s, Ancestors(Shr(|s| - 1, i + 1), i + 1)) == Values(f, s, InnerLog(|s|))
  {
    hide Shr, LowPop, Node, Ancestors, InnerLog;
    var n := |s|;
    var x := Shr(n - 1, i);
    LowPopStep(n, i);
    ShrPred(n, i);
    ShrStep(n - 1, i);
    Parent(f, s, i, x);
    AncestorsStep(x / 2, i);
    if loaded {
      assert x == 2 * (x / 2) + 1;
      ValuesConcat(f, s, [Id(i + 1, x / 2)], Ancestors(x / 2, i + 1));
      assert Values(f, s, [Id(i + 1, x / 2)]) == [f(acc, value)];
    } else {
      assert x == 2 * (x / 2);
    }
  }

  lemma {:induction false} FinishEnd<H>(f: (H, H) -> H, s: seq<H>, k: nat)
    requires 0 < |s| < Pow2(k)
    ensures Ancestors(Shr(|s| - 1, k), k) == [] && Values(f, s, []) == []
    ensures Node(f, s, Id(k, Shr(|s| - 1, k))) == Mth(f, s)
  {
    ShrZero(|s| - 1, k);
    assert Ancestors(0, k) == [];
    hide Shr, Node, Ancestors, Mth, Level;
    TopIsRoot(f, s, k);
    NodeIs(f, s, k, 0);
  }

  const MAXTREE := 32

  /** The incremental tree; `leaves` is everything given to `Update` so far. */
  class HashTree {
    const sha: Sha
    ghost const f: (Digest, Digest) -> Digest
    ghost var leaves: seq<Digest>
    var hashes: seq<Digest>
    const slots: array<Digest>
    const loaded: array<bool>

    ghost predicate Shape()
      reads this
    {
      slots.Length == loaded.Length == MAXTREE && f == Joiner(sha) && |leaves| < Pow2(MAXTREE)
    }

    ghost predicate Counter()
      requires Shape()
      reads this, slots, loaded
    {
      forall i :: 0 <= i < MAXTREE ==> Slot(f, leaves, i, loaded[i], slots[i])
    }

    ghost predicate Valid()
      reads this, slots, loaded
    {
      && Shape() && Counter()
      && hashes == if leaves == [] then [] else Values(f, leaves, Inner(|leaves|))
    }

    constructor (sha: Sha)
      ensures Valid() && leaves == [] && this.sha == sha
      ensures fresh(slots) && fresh(loaded) && slots.Length == loaded.Length == 32
    {
      this.sha := sha;
      f := Joiner(sha);
      leaves, hashes := [], [];
      slots := new Digest[MAXTREE](_ => seq(32, _ => 0));
      loaded := new bool[MAXTREE](_ => false);
      new;
      forall i | 0 <= i < MAXTREE ensures Shr(0, i) == 0 { ShrZero(0, i); }
    }

    /** The state of an update whose carry into level `i` is still to be placed. */
    ghost predicate Carrying(s: seq<Digest>, v: Digest, carry: Digest, i: nat)
      reads this, slots, loaded
    {
      && Shape() && i <= MAXTREE && leaves == s + [v]
      && (forall j :: 0 <= j < i ==> Slot(f, leaves, j, loaded[j], slots[j]))
      && (forall j :: i <= j < MAXTREE ==> Slot(f, s, j, loaded[j], slots[j]))
      && Shr(|s| + 1, i) == Shr(|s|, i) + 1
      && carry == Node(f, leaves, Id(i, Shr(|s|, i)))
      && hashes + Values(f, leaves, Climb(Shr(|s|, i), i)) == Values(f, leaves, Inner(|s| + 1))
    }

    /** Adds a leaf; returns the number of nodes it completed, which are logged in order. */
    method Update(hash: Digest) returns (r: nat)
      requires Valid() && |leaves| + 1 < Pow2(MAXTREE)
      modifies this`leaves, this`hashes, slots, loaded
      ensures Valid() && leaves == old(leaves) + [hash]
      ensures |hashes| == |old(hashes)| + r && old(hashes) <= hashes
    {
      hide Shr, Node, Pow2, Climb, Inner, Values, Slot;
      ghost var s := leaves;
      CarryStart(f, s, hash, hashes);
      leaves := s + [hash];
      if !loaded[0] {
        Store(s, hash, hash, 0);
        return 0;
      }
      Absorb(s, hash, hash, 0);
      var i := 1;
      while i < MAXTREE
        invariant 1 <= i <= MAXTREE && Shape() && Carrying(s, hash, slots[i - 1], i)
        invariant |hashes| == |old(hashes)| + i && old(hashes) <= hashes
      {
        if !loaded[i] {
          Store(s, hash, slots[i - 1], i);
          return i;
        }
        Absorb(s, hash, slots[i - 1], i);
        i := i + 1;
      }
      ShrZero(|s| + 1, MAXTREE);
      assert false;
    }

    /** Puts the carry into an empty slot, which ends the update. */
    method Store(ghost s: seq<Digest>, ghost v: Digest, carry: Digest, i: nat)
      requires Carrying(s, v, carry, i) && i < MAXTREE && !loaded[i]
      modifies slots, loaded
      ensures Valid()
    {
      hide Shr, Node, Pow2, Climb, Inner, Values, Slot;
      CarryEnd(f, s, v, i, slots[i], carry, hashes);
      SlotParity(f, s, i, false, slots[i]);
      forall j | i < j < MAXTREE ensures Slot(f, leaves, j, loaded[j], slots[j]) {
        SlotStays(f, s, v, i, j, loaded[j], slots[j]);
      }
      slots[i] := carry;
      loaded[i] := true;
    }

    /** Hashes a full slot with the carry, logs the result and empties the slot. */
    method Absorb(ghost s: seq<Digest>, ghost v: Digest, carry: Digest, i: nat)
      requires Carrying(s, v, carry, i) && i < MAXTREE && loaded[i]
      modifies this`hashes, slots, loaded
      ensures Carrying(s, v, slots[i], i + 1)
      ensures hashes == old(hashes) + [slots[i]]
    {
      hide Shr, Node, Pow2, Climb, Inner, Values, Slot;
      CarryStep(f, s, v, i, slots[i], carry, hashes);
      slots[i] := AddHash(sha, slots[i], carry);
      hashes := hashes + [slots[i]];
      loaded[i] := false;
      SlotEmpty(f, leaves, i, slots[i]);
    }

    /**
     * The root of the tree, with the nodes still missing from the log appended: the log then
     * holds every inner node, the root last. No leaves give the zero digest and result 0.
     */
    method Finish() returns (hash: Digest, r: int)
      requires Valid()
      modifies this`hashes
      ensures Shape() && Counter()
      ensures r == if leaves == [] then 0 else 1
      ensures hash == if leaves == [] then seq(32, _ => 0) else Mth(f, leaves)
      ensures hashes == if leaves == [] then [] else Values(f, leaves, InnerLog(|leaves|))
    {
      hide Shr, LowPop, Node, Pow2, Climb, Inner, InnerLog, Ancestors, Values, Slot, Mth;
      ghost var n := |leaves|;
      hash := seq(32, _ => 0);
      var i := 0;
      BitsZero(n);
      while i < MAXTREE
        invariant 0 <= i <= MAXTREE && LowPop(n, i) == 0
        invariant hash == seq(32, _ => 0) && hashes == old(hashes)
      {
        if loaded[i] {
          hash := slots[i];
          break;
        }
        SlotParity(f, leaves, i, false, slots[i]);
        LowPopStep(n, i);
        i := i + 1;
      }
      if i == MAXTREE {
        NoLeaves(n, MAXTREE);
        return hash, 0;
      }
      SlotCounts(f, leaves, i, slots[i]);
      FinishStart(f, leaves, i, slots[i], hashes);
      JoinCommutes(sha);
      i := i + 1;
      while i < MAXTREE
        invariant 0 <= i <= MAXTREE && LowPop(n, i) > 0
        invariant hash == Node(f, leaves, Id(i, Shr(n - 1, i)))
        invariant hashes + Values(f, leaves, Ancestors(Shr(n - 1, i), i)) == Values(f, leaves, InnerLog(n))
      {
        FinishStep(f, leaves, i, loaded[i], slots[i], hash, hashes);
        if loaded[i] {
          hash := AddHash(sha, hash, slots[i]);
          hashes := hashes + [hash];
        }
        i := i + 1;
      }
      FinishEnd(f, leaves, MAXTREE);
      return hash, 1;
    }
  }

  lemma {:induction false} NoLeaves(n: nat, k: nat)
    requires LowPop(n, k) == 0 && n < Pow2(k)
    ensures n == 0
    decreases k
  {
    if k > 0 {
      NoLeaves(n / 2, k - 1);
    }
  }

  lemma SlotCounts<H>(f: (H, H) -> H, s: seq<H>, i: nat, value: H)
    requires Slot(f, s, i, true, value)
    ensures |s| > 0
  {
  }

  lemma SlotParity<H>(f: (H, H) -> H, s: seq<H>, i: nat, loaded: bool, value: H)
    requires Slot(f, s, i, loaded, value)
    ensures loaded == (Shr(|s|, i) % 2 == 1)
  {
  }
}
