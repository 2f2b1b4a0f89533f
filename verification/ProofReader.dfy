/** The loop that fetches the hashes of a path, shared by messages and message lists. */
module ProofReader {
  import opened Binary
  import opened MerkleTree
  import opened MerkleLog
  import opened HashPath
  import opened MerkleProof
  import opened StoredProof
  import opened Popcount
  import opened Digests
  import opened Collisions

  /** A file holds the leaves' proof material: the kept log at `log`, the last leaf's hash at `last`. */
  ghost predicate Holds(file: seq<byte>, log: nat, last: nat, f: (Digest, Digest) -> Digest, leaves: seq<Digest>)
  {
    && last + 32 <= |file| && |leaves| > 0 && file[last..last + 32] == leaves[|leaves| - 1]
    && (|leaves| > 1 ==> forall i :: 0 <= i < |leaves| - 2 ==>
          log + 32 * i + 32 <= |file| && file[log + 32 * i..][..32] == Kept(f, leaves)[i])
  }

  /** Positions come from places inside the store, whichever branch the remap takes. */
  lemma {:induction false} ReadInStore(n: nat, p: int)
    requires n > 1 && 0 <= p < 2 * ((n + 1) / 2) - 2
    ensures InStore(n, ReadPlace(n, p))
  {
    hide Pop;
    PopPositive(n / 2);
    PopBound(n / 2);
  }

  /** The hashes read for the path of leaf `i`, as the code reads them. */
  function Fetched(f: (Digest, Digest) -> Digest, leaves: seq<Digest>, ps: seq<int>): (r: seq<Digest>)
    requires |leaves| > 1 && InRange(ps, 2 * ((|leaves| + 1) / 2) - 2)
    ensures |r| == |ps|
  {
    seq(|ps|, k requires 0 <= k < |ps| =>
      ReadInStore(|leaves|, ps[k]); Stored(f, leaves, ReadPlace(|leaves|, ps[k])))
  }

  /** Read from the true places they are the path of the pair. */
  lemma {:induction false} FetchedIsPath(f: (Digest, Digest) -> Digest, leaves: seq<Digest>, i: nat)
    requires |leaves| > 1 && i < |leaves| && ReadsBack(|leaves|, i)
    ensures InRange(PathPositions((|leaves| + 1) / 2, i / 2, 0), 2 * ((|leaves| + 1) / 2) - 2)
    ensures Fetched(f, leaves, PathPositions((|leaves| + 1) / 2, i / 2, 0)) == PairPath(f, leaves, i / 2)
  {
    hide Pop, PathPositions, FullLog, Values, Stored, ReadPlace, TruePlace;
    var m := (|leaves| + 1) / 2;
    var ps := PathPositions(m, i / 2, 0);
    PathFits(m, i / 2);
    FullLogFacts(m);
    assert |Up(f, leaves)| == m;
    forall k | 0 <= k < |ps|
      ensures Fetched(f, leaves, ps)[k] == PairPath(f, leaves, i / 2)[k]
    {
      TruePlaceHolds(f, leaves, ps[k]);
    }
  }

  /** What is read behind the hash of leaf `i`, wherever the remap takes it from. */
  function TailRead(f: (Digest, Digest) -> Digest, leaves: seq<Digest>, i: nat): seq<Digest>
    requires i < |leaves|
  {
    var m := (|leaves| + 1) / 2;
    PathFits(m, i / 2);
    var ps := PathPositions(m, i / 2, 0);
    PairSibling(leaves, i) + if ps == [] then [] else Fetched(f, leaves, ps)
  }

  /** For the leaves that are read back it is the rest of the inclusion proof. */
  lemma {:induction false} TailIsProof(f: (Digest, Digest) -> Digest, leaves: seq<Digest>, i: nat)
    requires i < |leaves| && Readable(|leaves|, i)
    ensures TailRead(f, leaves, i) == ChainTail(f, leaves, i)
  {
    hide PathPositions, PairSibling, Fetched, ReadsBack, Readable;
    ReadsBackAt(|leaves|, i);
    var ps := PathPositions((|leaves| + 1) / 2, i / 2, 0);
    if ps != [] {
      PathFits((|leaves| + 1) / 2, i / 2);
      assert 0 <= ps[0] < 2 * ((|leaves| + 1) / 2) - 2;
      FetchedIsPath(f, leaves, i);
    } else {
      assert |Up(f, leaves)| == (|leaves| + 1) / 2;
    }
  }

  lemma {:induction false} TailSizes(f: (Digest, Digest) -> Digest, leaves: seq<Digest>, i: nat)
    requires i < |leaves|
    ensures |TailRead(f, leaves, i)| == |ChainTail(f, leaves, i)|
  {
    hide PathPositions, PairSibling, FullLog, Values;
    assert |Up(f, leaves)| == (|leaves| + 1) / 2;
    PathFits((|leaves| + 1) / 2, i / 2);
    FullLogFacts((|leaves| + 1) / 2);
  }

  /**
   * What success means for any leaf, also one that is not read back: the hashes read are the proof, or two strings
   * collide, or at some step the hash read is the one reached by the proof and the other way round.
   */
  lemma {:induction false} ReadMeans(sha: Sha, leaves: seq<Digest>, i: nat) returns (u: seq<byte>, v: seq<byte>)
    requires i < |leaves|
    requires Fold(Joiner(sha), leaves[i], TailRead(Joiner(sha), leaves, i)) == Mth(Joiner(sha), leaves)
    ensures var f := Joiner(sha); var read, proof := TailRead(f, leaves, i), ChainTail(f, leaves, i);
      Collide(sha, u, v) || read == proof || exists j: nat :: Across(f, leaves[i], read, leaves[i], proof, j)
  {
    hide *;
    var f := Joiner(sha);
    var read, proof := TailRead(f, leaves, i), ChainTail(f, leaves, i);
    JoinCommutes(sha);
    TailProves(f, leaves, i);
    TailSizes(f, leaves, i);
    u, v := RunsMeet(sha, leaves[i], read, leaves[i], proof);
    MeetSameLength(f, leaves[i], read, leaves[i], proof);
  }

  method ReadSiblings(file: seq<byte>, log: nat, last: nat, n: u32, add: seq<u32>,
                      ghost f: (Digest, Digest) -> Digest, ghost leaves: seq<Digest>)
    returns (hashes: seq<Digest>)
    requires n == |leaves| && Holds(file, log, last, f, leaves)
    requires add != [] ==> n > 1 && InRange(add, 2 * ((n + 1) / 2) - 2)
    ensures hashes == if add == [] then [] else Fetched(f, leaves, add)
  {
    hide Pop, Kept;
    hashes := [];
    var m := 32 * 32;
    if n % 2 == 1 {
      var ones := Bits(n / 2);
      m := 2 * (n / 2) - ones;
    }
    for k := 0 to |add|
      invariant |hashes| == k
      invariant k > 0 ==> hashes == Fetched(f, leaves, add)[..k]
    {
      var p := add[k];
      ReadInStore(n, p);
      assert Fetched(f, leaves, add)[..k + 1] == Fetched(f, leaves, add)[..k] + [Fetched(f, leaves, add)[k]];
      if p < m {
        hashes := hashes + [file[log + 32 * p..][..32]];
      } else if p == m {
        hashes := hashes + [file[last..last + 32]];
      } else {
        hashes := hashes + [file[log + 32 * (p - 1)..][..32]];
      }
    }
  }

  /** `hashpathrun`: the first hash, with all others folded in. */
  method HashPathRun(sha: Sha, hashes: seq<Digest>) returns (hash: Digest)
    requires hashes != []
    ensures hash == Run(Joiner(sha), hashes)
  {
    ghost var f := Joiner(sha);
    hash := hashes[0];
    for i := 1 to |hashes|
      invariant hash == Fold(f, hashes[0], hashes[1..i])
    {
      assert hashes[1..i + 1] == hashes[1..i] + [hashes[i]];
      FoldConcat(f, hashes[0], hashes[1..i], [hashes[i]]);
      FoldShort(f, hash, [hashes[i]]);
      hash := AddHash(sha, hash, hashes[i]);
    }
    assert hashes[1..|hashes|] == hashes[1..];
  }
}
