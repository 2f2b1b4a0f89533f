/** The two message hashers, `message::hash_tree` and `message::hash_tree_fast`. */
module Messages {
  import opened Options
  import opened Binary
  import opened Words
  import opened MerkleTree
  import opened MerkleLog
  import opened MerkleProof
  import opened Digests
  import opened Bytes
  import opened Framing
  import opened HashTree

  const DATA_OFFSET := 4 + 64 + 10
  const MAX_LENGTH := 0xffffff

  // ---------- leaf hashes ----------

  function XorByte(a: byte, b: byte): byte {
    Pow2Byte();
    Xor(a, b, 8)
  }

  lemma Pow2Byte()
    ensures Pow2(8) == 256
  {
    Pow2Values();
  }

  /** `v`, as a little-endian integer of `w` bytes, exclusive-ored into the hash at `off`. */
  function XorInto(h: Digest, off: nat, v: nat, w: nat): Digest
    requires off + w <= 32
  {
    seq(32, i requires 0 <= i < 32 =>
      if off <= i < off + w then XorByte(h[i], Le(v, w)[i - off]) else h[i])
  }

  /** The leaf of transaction `tnum`: its hash with node, message and position mixed in. */
  function TxLeaf(sha: Sha, tx: seq<byte>, svid: nat, msid: nat, tnum: nat): Digest {
    XorInto(XorInto(XorInto(sha(tx), 0, svid, 2), 4, msid, 4), 8, tnum, 2)
  }

  /** The same through the 32-bit lanes of `hash_s::hxor`. */
  function TxLeafLanes(sha: Sha, tx: seq<byte>, svid: nat, msid: nat, tnum: nat): Digest {
    XorInto(XorInto(XorInto(sha(tx), 0, svid, 4), 4, msid, 4), 8, tnum, 4)
  }

  lemma {:induction false} LeShort(v: nat)
    requires v < 0x1_0000
    ensures Le(v, 4)[0] == Le(v, 2)[0] && Le(v, 4)[1] == Le(v, 2)[1]
    ensures Le(v, 4)[2] == 0 && Le(v, 4)[3] == 0
  {
    assert v / 256 / 256 == 0;
    assert Le(v, 4) == [v % 256] + Le(v / 256, 3);
    assert Le(v / 256, 3) == [v / 256 % 256] + Le(v / 256 / 256, 2);
    assert Le(0, 2) == [0] + Le(0, 1);
    assert Le(0, 1) == [0] + Le(0, 0);
    assert Le(v, 2) == [v % 256] + Le(v / 256, 1);
    assert Le(v / 256, 1) == [v / 256 % 256] + Le(v / 256 / 256, 0);
  }

  lemma XorLane(h: Digest, off: nat, v: nat)
    requires off + 4 <= 32 && v < 0x1_0000
    ensures XorInto(h, off, v, 4) == XorInto(h, off, v, 2)
  {
    hide Xor, Le;
    LeShort(v);
    Pow2Byte();
    XorZero(h[off + 2], 8);
    XorZero(h[off + 3], 8);
  }

  /** 16-bit and 32-bit lanes mix the same identifiers in. */
  lemma LanesAgree(sha: Sha, tx: seq<byte>, svid: nat, msid: nat, tnum: nat)
    requires svid < 0x1_0000 && tnum < 0x1_0000
    ensures TxLeafLanes(sha, tx, svid, msid, tnum) == TxLeaf(sha, tx, svid, msid, tnum)
  {
    hide XorInto;
    XorLane(sha(tx), 0, svid);
    XorLane(XorInto(XorInto(sha(tx), 0, svid, 2), 4, msid, 4), 8, tnum);
  }

  /** What is mixed into a hash to give a leaf: their bytewise exclusive or. */
  function Mixed(h: Digest, l: Digest): Digest {
    seq(32, i requires 0 <= i < 32 => XorByte(h[i], l[i]))
  }

  lemma XorByteTwice(h: byte, x: byte)
    ensures XorByte(h, XorByte(h, x)) == x && XorByte(h, h) == 0
  {
    hide Xor;
    Pow2Byte();
    XorXor(h, x, 8);
    XorZero(h, 8);
    XorXor(h, 0, 8);
  }

  /** The node is mixed into bytes 0 and 1, the message into 4 to 7, the number into 8 and 9, and nothing else. */
  lemma {:induction false} LeafBytes(sha: Sha, tx: seq<byte>, svid: nat, msid: nat, tnum: nat)
    requires svid < 0x1_0000 && msid < 0x1_0000_0000 && tnum < 0x1_0000
    ensures var x := Mixed(sha(tx), TxLeaf(sha, tx, svid, msid, tnum));
      && FromLe(x[0..2]) == svid && FromLe(x[4..8]) == msid && FromLe(x[8..10]) == tnum
      && forall i :: 0 <= i < 32 && (i == 2 || i == 3 || i >= 10) ==> x[i] == 0
  {
    assert Pow256(2) == 0x1_0000 && Pow256(4) == 0x1_0000_0000;
    hide XorByte, Le, FromLe, Pow256;
    var h := sha(tx);
    var x := Mixed(h, TxLeaf(sha, tx, svid, msid, tnum));
    forall i | 0 <= i < 32
      ensures x[i] == (if i < 2 then Le(svid, 2)[i] else if 4 <= i < 8 then Le(msid, 4)[i - 4]
                       else if 8 <= i < 10 then Le(tnum, 2)[i - 8] else 0)
    {
      XorByteTwice(h[i], if i < 2 then Le(svid, 2)[i] else if 4 <= i < 8 then Le(msid, 4)[i - 4]
                         else if 8 <= i < 10 then Le(tnum, 2)[i - 8] else 0);
    }
    assert x[0..2] == Le(svid, 2) && x[4..8] == Le(msid, 4) && x[8..10] == Le(tnum, 2);
    LeRoundTrip(svid, 2);
    LeRoundTrip(msid, 4);
    LeRoundTrip(tnum, 2);
  }

  /** The leaves of a message: its header hash and one hash for each transaction, numbered modulo 2^16. */
  function Leaves(sha: Sha, header: seq<byte>, txs: seq<seq<byte>>, svid: nat, msid: nat): (r: seq<Digest>)
    ensures |r| == |txs| + 1
  {
    [sha(header)] + seq(|txs|, i requires 0 <= i < |txs| =>
      TxLeaf(sha, txs[i], svid, msid, (i + 1) % 0x1_0000))
  }

  lemma LeavesGrow(sha: Sha, header: seq<byte>, txs: seq<seq<byte>>, tx: seq<byte>, svid: nat, msid: nat)
    ensures Leaves(sha, header, txs + [tx], svid, msid)
      == Leaves(sha, header, txs, svid, msid) + [TxLeaf(sha, tx, svid, msid, (|txs| + 1) % 0x1_0000)]
  {
    hide TxLeaf;
  }

  /** What both hashers demand of their caller. */
  ghost predicate IsMessage(data: seq<byte>, svid: nat, msid: nat) {
    && DATA_OFFSET < |data| <= MAX_LENGTH && data[0] == 3
    && 0 < svid < 0x1_0000 && 0 < msid < 0x1_0000_0000
  }

  function Header(data: seq<byte>): seq<byte>
    requires DATA_OFFSET < |data|
  {
    data[4 + 64..DATA_OFFSET]
  }

  function Transactions(st: Stray, data: seq<byte>): Split
    requires DATA_OFFSET < |data|
  {
    Frames(st, data[DATA_OFFSET..])
  }

  /** A message is accepted when it splits and its 16-bit transaction counter has not come back to 0. */
  predicate Accepted(st: Stray, data: seq<byte>)
    requires DATA_OFFSET < |data|
  {
    Transactions(st, data).Split? && (|Transactions(st, data).value| + 1) % 0x1_0000 != 0
  }

  function Root(st: Stray, sha: Sha, data: seq<byte>, svid: nat, msid: nat): Digest
    requires DATA_OFFSET < |data| && Accepted(st, data)
  {
    Mth(Joiner(sha), Leaves(sha, Header(data), Transactions(st, data).value, svid, msid))
  }

  lemma {:induction false} FramedCount(st: Stray, txs: seq<seq<byte>>)
    requires AllFramed(st, txs)
    ensures |txs| <= |Flat(txs)|
  {
    if txs != [] {
      FramedSize(st, txs[0]);
      FramedCount(st, txs[1..]);
    }
  }

  /** Where a walk over the transactions stands: `done` is behind it, `p` is the next byte. */
  ghost predicate Walk(st: Stray, data: seq<byte>, p: nat, done: seq<seq<byte>>) {
    && DATA_OFFSET <= p <= |data| && AllFramed(st, done)
    && data[DATA_OFFSET..p] == Flat(done)
  }

  lemma {:induction false} WalkOn(st: Stray, data: seq<byte>, p: nat, done: seq<seq<byte>>, l: nat)
    requires Walk(st, data, p, done) && l > 0 && p + l <= |data| && GetSize(st, data[p..]) == Some(l)
    ensures Walk(st, data, p + l, done + [data[p..p + l]])
  {
    hide GetSize, Flat;
    assert data[p..][..l] == data[p..p + l];
    CutLocal(st, data[p..], l);
    FlatConcat(done, [data[p..p + l]]);
    FlatOne(data[p..p + l]);
    assert data[DATA_OFFSET..p + l] == data[DATA_OFFSET..p] + data[p..p + l];
  }

  /** What the head at `p` says about the whole walk. */
  lemma {:induction false} WalkEnds(st: Stray, data: seq<byte>, p: nat, done: seq<seq<byte>>)
    requires DATA_OFFSET < |data| && Walk(st, data, p, done)
    ensures p == |data| ==> Transactions(st, data) == Split(done)
    ensures p < |data| ==> var l := GetSize(st, data[p..]);
      && (l.None? ==> Transactions(st, data) == Refused)
      && (l == Some(0) ==> Transactions(st, data) == Endless)
      && (l.Some? && p + l.value > |data| ==> Transactions(st, data) == Refused)
  {
    HeadEnds(st, data[p..]);
    PrependedNone(done);
    assert data[DATA_OFFSET..] == data[DATA_OFFSET..p] + data[p..];
    var rest := Frames(st, data[p..]);
    assert !rest.Split? ==> Prepended(done, rest) == rest;
    hide GetSize, Flat, Frames, Prepended;
    SplitAfter(st, done, data[p..]);
  }

  lemma HeadEnds(st: Stray, s: seq<byte>)
    ensures s == [] ==> Frames(st, s) == Split([])
    ensures s != [] ==> var l := GetSize(st, s);
      && (l.None? ==> Frames(st, s) == Refused)
      && (l == Some(0) ==> Frames(st, s) == Endless)
      && (l.Some? && l.value > |s| ==> Frames(st, s) == Refused)
  {
    hide GetSize;
  }

  /**
   * `hash_tree_fast`: the verdict and the root, nothing stored. `behind` is the memory after the message, which the
   * size of a cut transaction is read from. Without `ends` the loop stays at a head that announces no bytes.
   */
  method HashTreeFast(st: Stray, sha: Sha, data: seq<byte>, behind: seq<byte>, svid: nat, msid: nat)
    returns (ends: bool, ok: bool, sigh: Digest)
    requires IsMessage(data, svid, msid)
    ensures ends <==> Transactions(st, data) != Endless
    ensures ok == Accepted(st, data)
    ensures ok ==> sigh == Root(st, sha, data, svid, msid)
  {
    hide *;
    MessageIs(data, svid, msid);
    VerdictIs(st, sha, data, svid, msid);
    ends, ok, sigh := true, false, seq(32, _ => 0);
    var tree := new HashTree(sha);
    Start(st, sha, data, svid, msid);
    var _ := tree.Update(sha(Header(data)));
    var p: nat, tnum := DATA_OFFSET, 1;
    ghost var done: seq<seq<byte>> := [];
    while p < |data|
      invariant p <= |data| && Walk(st, data, p, done) && tnum == (|done| + 1) % 0x1_0000
      invariant ends && !ok
      invariant fresh(tree) && fresh(tree.slots) && fresh(tree.loaded) && tree.Valid() && tree.sha == sha
      invariant tree.leaves == Leaves(sha, Header(data), done, svid, msid)
    {
      WalkEnds(st, data, p, done);
      BehindDecidesNothing(st, data[p..], behind);
      var l := GetSize(st, data[p..] + behind);
      if l.None? {
        return;
      }
      if p + l.value > |data| {
        // the source hashes past the end and finds `p != end` after the loop
        return;
      }
      if l.value == 0 {
        return false, false, sigh;
      }
      var tx := data[p..p + l.value];
      WalkOn(st, data, p, done, l.value);
      WalkBound(st, data, p, done);
      Room(st, data, p, done);
      LeavesGrow(sha, Header(data), done, tx, svid, msid);
      var hash := TxLeaf(sha, tx, svid, msid, tnum);
      var _ := tree.Update(hash);
      done := done + [tx];
      p, tnum := p + l.value, (tnum + 1) % 0x1_0000;
    }
    WalkEnds(st, data, p, done);
    if tnum == 0 {
      return;
    }
    TreeIs(tree);
    var root, _ := tree.Finish();
    return true, true, root;
  }

  lemma TreeIs(tree: HashTree)
    requires tree.Valid()
    ensures tree.f == Joiner(tree.sha)
  {
    hide Pow2, Slot, Values, Inner;
  }

  lemma MessageIs(data: seq<byte>, svid: nat, msid: nat)
    requires IsMessage(data, svid, msid)
    ensures DATA_OFFSET < |data| <= MAX_LENGTH && 0 < svid < 0x1_0000 && 0 < msid < 0x1_0000_0000
  {
  }

  lemma VerdictIs(st: Stray, sha: Sha, data: seq<byte>, svid: nat, msid: nat)
    requires DATA_OFFSET < |data|
    ensures Accepted(st, data) <==>
      Transactions(st, data).Split? && (|Transactions(st, data).value| + 1) % 0x1_0000 != 0
    ensures Accepted(st, data) ==>
      Root(st, sha, data, svid, msid)
      == Mth(Joiner(sha), Leaves(sha, Header(data), Transactions(st, data).value, svid, msid))
  {
    hide Frames, Mth, Joiner, Leaves;
  }

  lemma WalkBound(st: Stray, data: seq<byte>, p: nat, done: seq<seq<byte>>)
    requires Walk(st, data, p, done)
    ensures DATA_OFFSET <= p <= |data|
  {
  }

  lemma Start(st: Stray, sha: Sha, data: seq<byte>, svid: nat, msid: nat)
    requires DATA_OFFSET < |data|
    ensures Walk(st, data, DATA_OFFSET, [])
    ensures Leaves(sha, Header(data), [], svid, msid) == [] + [sha(Header(data))]
    ensures 1 < Pow2(32) == Pow2(MAXTREE) && DATA_OFFSET > 0
  {
    Pow2Values();
  }

  /** A message of at most 2^24 bytes never fills the tree. */
  lemma Room(st: Stray, data: seq<byte>, p: nat, done: seq<seq<byte>>)
    requires Walk(st, data, p, done) && |data| <= MAX_LENGTH
    ensures |done| + 2 < Pow2(32) == Pow2(MAXTREE)
  {
    hide Pow2, Flat, GetSize;
    FramedCount(st, done);
    Pow2Values();
  }

  /** An accepted message: four bytes, a signature of 64, a header of 10, and the transactions. */
  lemma {:induction false} MessageParts(st: Stray, data: seq<byte>)
    requires DATA_OFFSET < |data| && Accepted(st, data)
    ensures |Header(data)| == 10 && |data[4..68]| == 64
    ensures data == data[..4] + data[4..68] + Header(data) + Flat(Transactions(st, data).value)
    ensures AllFramed(st, Transactions(st, data).value)
  {
    hide Frames, Flat;
    SplitSound(st, data[DATA_OFFSET..]);
  }

  /** The largest length is the largest that the three length bytes of a message hold. */
  lemma {:induction false} MaxLengthIs(n: nat)
    ensures FromLe(Le(n, 3)) == n <==> n <= MAX_LENGTH
  {
    assert Pow256(3) == 0x100_0000;
    hide Le, FromLe, Pow256;
    FromLeBound(Le(n, 3));
    if n <= MAX_LENGTH {
      LeRoundTrip(n, 3);
    }
  }

  // ---------- limits ----------

  /** Exactly a walk without type bytes from 0x80 on has a verdict that does not depend on the stray lengths. */
  lemma {:induction false} VerdictIff(st: Stray, data: seq<byte>)
    requires DATA_OFFSET < |data|
    ensures Plain(data[DATA_OFFSET..])
      ==> Transactions(st, data) != Endless && (Accepted(st, data) <==> Accepted(Nothing, data))
    ensures !Plain(data[DATA_OFFSET..])
      ==> !Accepted(Nothing, data) && Transactions(Standing, data) == Endless
  {
    hide Frames, Plain;
    PlainIff(st, data[DATA_OFFSET..]);
  }

  /** A message with one transaction of stray type is accepted, though `parse` refuses that transaction. */
  lemma {:induction false} StrayAccepted(st: Stray, data: seq<byte>)
    requires DATA_OFFSET < |data| && data[DATA_OFFSET] == 0x80 && st(0x80) == Some(|data| - DATA_OFFSET)
    ensures Accepted(st, data) && Transactions(st, data) == Split([data[DATA_OFFSET..]])
    ensures ParsedSize(data[DATA_OFFSET..]) == None
  {
    hide Frames;
    StrayType(st, data[DATA_OFFSET..]);
  }

  const EMPTY: seq<byte> := [NON, 4, 0, 0]

  /** `n` transactions of four bytes. */
  function Fill(n: nat): (r: seq<seq<byte>>)
    ensures |r| == n && forall i :: 0 <= i < n ==> r[i] == EMPTY
  {
    seq(n, _ => EMPTY)
  }

  /** They are accepted unless one more than their number is a multiple of 2^16: 65535 of them are refused. */
  lemma {:induction false} CountedOut(st: Stray, data: seq<byte>, n: nat)
    requires DATA_OFFSET < |data| && data[DATA_OFFSET..] == Flat(Fill(n))
    ensures Transactions(st, data) == Split(Fill(n))
    ensures Accepted(st, data) <==> (n + 1) % 0x1_0000 != 0
  {
    EmptyFramed(st);
    hide Frames, Flat, Framed;
    SplitIff(st, data[DATA_OFFSET..], Fill(n));
  }

  lemma EmptyFramed(st: Stray)
    ensures Framed(st, EMPTY)
  {
  }

  /** The message of 65535 such transactions splits and is not accepted. */
  lemma {:induction false} FullCounter(st: Stray, header: seq<byte>)
    requires |header| == DATA_OFFSET
    ensures var data := header + Flat(Fill(65535));
      && DATA_OFFSET < |data| <= MAX_LENGTH
      && Transactions(st, data).Split? && !Accepted(st, data)
  {
    hide Flat, Accepted, Transactions, Fill;
    var data := header + Flat(Fill(65535));
    FlatLength(Fill(65535), 4);
    assert data[DATA_OFFSET..] == Flat(Fill(65535));
    CountedOut(st, data, 65535);
  }
}
