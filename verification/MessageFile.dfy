/** What `message::hash_tree` appends to a message, and how `message::hash_tree_get` reads it back. */
module MessageFile {
  import opened Options
  import opened Binary
  import opened MerkleTree
  import opened MerkleLog
  import opened HashPath
  import opened MerkleProof
  import opened StoredProof
  import opened Popcount
  import opened Digests
  import opened Bytes
  import opened Framing
  import opened HashTree
  import opened ProofReader
  import opened Messages

  // ---------- layout ----------

  /** Offset in the message of leaf `i`: the header, then the transactions. */
  function Offset(txs: seq<seq<byte>>, i: nat): nat
    requires i <= |txs| + 1
  {
    if i == 0 then 4 + 64 else DATA_OFFSET + |Flat(txs[..i - 1])|
  }

  /** One table entry for each leaf: its offset and its hash. */
  function Records(txs: seq<seq<byte>>, leaves: seq<Digest>): (r: seq<seq<byte>>)
    requires |leaves| == |txs| + 1
    ensures |r| == |leaves| && Width(r, 36)
  {
    seq(|leaves|, i requires 0 <= i < |leaves| => Le(Offset(txs, i), 4) + leaves[i])
  }

  function Layout(body: seq<byte>, sigh: Digest, mnum: nat, recs: seq<seq<byte>>, kept: seq<seq<byte>>): seq<byte> {
    var total := |body| + 44 + 36 * |recs| + 32 * |kept|;
    body + (sigh + (Le(mnum, 4) + (Le(total, 4) + (Le(|recs|, 4) + (Flat(recs) + Flat(kept))))))
  }

  /** The bytes `hash_tree` leaves in `data`, with the block index `mnum` that is written later. */
  function Encode(st: Stray, sha: Sha, body: seq<byte>, svid: nat, msid: nat, mnum: nat): seq<byte>
    requires DATA_OFFSET < |body| && Accepted(st, body) && |LeavesOf(st, sha, body, svid, msid)| > 1
  {
    var leaves := LeavesOf(st, sha, body, svid, msid);
    Layout(body, Root(st, sha, body, svid, msid), mnum,
      Records(Transactions(st, body).value, leaves), Kept(Joiner(sha), leaves))
  }

  function LeavesOf(st: Stray, sha: Sha, body: seq<byte>, svid: nat, msid: nat): (r: seq<Digest>)
    requires DATA_OFFSET < |body| && Accepted(st, body)
    ensures |r| == |Transactions(st, body).value| + 1
  {
    Leaves(sha, Header(body), Transactions(st, body).value, svid, msid)
  }

  lemma {:induction false} TwoLeaves(st: Stray, sha: Sha, body: seq<byte>, svid: nat, msid: nat)
    requires DATA_OFFSET < |body| && Accepted(st, body)
    ensures |LeavesOf(st, sha, body, svid, msid)| > 1
  {
    hide GetSize, Leaves;
    SplitSound(st, body[DATA_OFFSET..]);
    assert Flat([]) == [];
  }

  // ---------- slices of the layout ----------

  lemma {:induction false} LayoutHead(body: seq<byte>, sigh: Digest, mnum: nat,
                                      recs: seq<seq<byte>>, kept: seq<seq<byte>>)
    ensures var file := Layout(body, sigh, mnum, recs, kept); var b := |body|;
      && |file| == b + 44 + |Flat(recs)| + |Flat(kept)|
      && file[..b] == body && file[b..b + 32] == sigh && file[b + 32..b + 36] == Le(mnum, 4)
      && file[b + 36..b + 40] == Le(b + 44 + 36 * |recs| + 32 * |kept|, 4)
      && file[b + 40..b + 44] == Le(|recs|, 4)
      && file[b + 44..] == Flat(recs) + Flat(kept)
  {
    hide Flat, Le;
  }

  lemma {:induction false} LayoutRecord(body: seq<byte>, sigh: Digest, mnum: nat,
                                        recs: seq<seq<byte>>, kept: seq<seq<byte>>, i: nat)
    requires Width(recs, 36) && Width(kept, 32) && i < |recs|
    ensures var file := Layout(body, sigh, mnum, recs, kept); var at := |body| + 44 + 36 * i;
      at + 36 <= |file| && file[at..at + 36] == recs[i]
  {
    hide Flat, Layout;
    LayoutHead(body, sigh, mnum, recs, kept);
    FlatAt(recs, 36, i);
    var file := Layout(body, sigh, mnum, recs, kept);
    SubSlice(file, |body| + 44, 36 * i, 36, Flat(recs), Flat(kept));
  }

  lemma {:induction false} LayoutKept(body: seq<byte>, sigh: Digest, mnum: nat,
                                      recs: seq<seq<byte>>, kept: seq<seq<byte>>, i: nat)
    requires Width(recs, 36) && Width(kept, 32) && i < |kept|
    ensures var file := Layout(body, sigh, mnum, recs, kept); var at := |body| + 44 + 36 * |recs| + 32 * i;
      at + 32 <= |file| && file[at..at + 32] == kept[i]
  {
    hide Flat, Layout;
    LayoutHead(body, sigh, mnum, recs, kept);
    FlatLength(recs, 36);
    FlatLength(kept, 32);
    FlatAt(kept, 32, i);
    var file := Layout(body, sigh, mnum, recs, kept);
    assert file[|body| + 44..] == Flat(recs) + Flat(kept);
    SubSliceAfter(file, |body| + 44, Flat(recs), 32 * i, 32, Flat(kept));
  }

  lemma SubSlice(file: seq<byte>, base: nat, off: nat, n: nat, a: seq<byte>, b: seq<byte>)
    requires base <= |file| && file[base..] == a + b && off + n <= |a|
    ensures base + off + n <= |file| && file[base + off..base + off + n] == a[off..off + n]
  {
    var tail := file[base..];
    assert |tail| == |a| + |b|;
    SliceDropped(file, base, off, n);
    assert tail[off..off + n] == a[off..off + n];
  }

  lemma SliceDropped(file: seq<byte>, base: nat, off: nat, n: nat)
    requires base + off + n <= |file|
    ensures file[base..][off..off + n] == file[base + off..base + off + n]
  {
    var tail := file[base..];
    var l, r := tail[off..off + n], file[base + off..base + off + n];
    forall i | 0 <= i < n
      ensures l[i] == r[i]
    {
      assert tail[off + i] == file[base + off + i];
    }
  }

  lemma SubSliceAfter(file: seq<byte>, base: nat, a: seq<byte>, off: nat, n: nat, b: seq<byte>)
    requires base <= |file| && file[base..] == a + b && off + n <= |b|
    ensures base + |a| + off + n <= |file|
    ensures file[base + |a| + off..base + |a| + off + n] == b[off..off + n]
  {
    var tail := file[base..];
    assert |tail| == |a| + |b|;
    SliceDropped(file, base, |a| + off, n);
    assert tail[|a| + off..|a| + off + n] == b[off..off + n];
  }

  // ---------- writing ----------

  lemma {:induction false} OffsetIs(st: Stray, body: seq<byte>, p: nat, done: seq<seq<byte>>, txs: seq<seq<byte>>)
    requires Walk(st, body, p, done) && done <= txs
    ensures Offset(txs, |done| + 1) == p
  {
    hide Flat, GetSize;
    assert txs[..|done|] == done;
  }

  lemma {:induction false} WalkPrefix(st: Stray, data: seq<byte>, p: nat, done: seq<seq<byte>>)
    requires DATA_OFFSET < |data| && Walk(st, data, p, done) && Transactions(st, data).Split?
    ensures done <= Transactions(st, data).value
  {
    hide GetSize, Flat, Frames;
    SplitAfter(st, done, data[p..]);
    assert data[DATA_OFFSET..] == data[DATA_OFFSET..p] + data[p..];
  }

  /** The offsets noted so far, one for each leaf. */
  ghost predicate Noted(st: Stray, data: seq<byte>, tpos: seq<nat>, k: nat)
  {
    && DATA_OFFSET < |data| && |tpos| == k
    && (Transactions(st, data).Split? ==>
          && k <= |Transactions(st, data).value| + 1
          && forall i :: 0 <= i < k ==> tpos[i] == Offset(Transactions(st, data).value, i))
  }

  /** `hash_tree`: the verdict of `hash_tree_fast`, and the proof material behind the message. */
  method HashTreeFull(st: Stray, sha: Sha, data: seq<byte>, behind: seq<byte>, svid: nat, msid: nat)
    returns (ends: bool, ok: bool, sigh: Digest, stored: seq<byte>)
    requires IsMessage(data, svid, msid)
    ensures ends <==> Transactions(st, data) != Endless
    ensures ok == Accepted(st, data)
    ensures ok ==> sigh == Root(st, sha, data, svid, msid)
    ensures ok ==> |LeavesOf(st, sha, data, svid, msid)| > 1 && stored == Encode(st, sha, data, svid, msid, 0)
  {
    hide Pow2, GetSize, Flat, Frames, TxLeaf, TxLeafLanes, Leaves, Walk, Mth, Joiner, Slot, Inner, Values, InnerLog,
      Noted;
    ends, ok, sigh, stored := true, false, seq(32, _ => 0), data;
    var tree := new HashTree(sha);
    Messages.Start(st, sha, data, svid, msid);
    NotedStart(st, data);
    var ha := sha(Header(data));
    var tpos: seq<nat>, first := [4 + 64], [ha];
    var _ := tree.Update(ha);
    var p, tnum := DATA_OFFSET, 1;
    ghost var done: seq<seq<byte>> := [];
    while p < |data|
      invariant p <= |data| && Walk(st, data, p, done) && tnum == (|done| + 1) % 0x1_0000
      invariant ends && !ok
      invariant fresh(tree) && fresh(tree.slots) && fresh(tree.loaded) && tree.Valid() && tree.sha == sha
      invariant tree.leaves == first == Leaves(sha, Header(data), done, svid, msid)
      invariant |tpos| == |first| && Noted(st, data, tpos, |done| + 1)
    {
      WalkEnds(st, data, p, done);
      BehindDecidesNothing(st, data[p..], behind);
      var l := GetSize(st, data[p..] + behind);
      if l.None? {
        return;
      }
      if p + l.value > |data| {
        return;
      }
      if l.value == 0 {
        return false, false, sigh, stored;
      }
      var tx := data[p..p + l.value];
      WalkOn(st, data, p, done, l.value);
      Room(st, data, p, done);
      NotedMore(st, data, tpos, p, done, tx, l.value);
      LeavesGrow(sha, Header(data), done, tx, svid, msid);
      LanesAgree(sha, tx, svid, msid, tnum);
      tpos := tpos + [p];
      ha := TxLeafLanes(sha, tx, svid, msid, tnum);
      first := first + [ha];
      var _ := tree.Update(ha);
      done := done + [tx];
      p, tnum := p + l.value, (tnum + 1) % 0x1_0000;
    }
    WalkEnds(st, data, p, done);
    if tnum == 0 {
      return;
    }
    TwoLeaves(st, sha, data, svid, msid);
    sigh, stored := Close(st, sha, data, svid, msid, tree, tpos, first);
    ok := true;
  }

  /** The end of `hash_tree`, once every transaction is in the tree. */
  method Close(ghost st: Stray, sha: Sha, data: seq<byte>, ghost svid: nat, ghost msid: nat, tree: HashTree,
               tpos: seq<nat>, first: seq<Digest>)
    returns (sigh: Digest, stored: seq<byte>)
    requires DATA_OFFSET < |data| && Accepted(st, data)
    requires tree.Valid() && tree.sha == sha
    requires tree.leaves == first == LeavesOf(st, sha, data, svid, msid) && |first| > 1
    requires |tpos| == |first| && Noted(st, data, tpos, |first|)
    modifies tree`hashes
    ensures sigh == Root(st, sha, data, svid, msid)
    ensures |LeavesOf(st, sha, data, svid, msid)| > 1 && stored == Encode(st, sha, data, svid, msid, 0)
  {
    hide Pow2, Flat, Frames, Leaves, Mth, Joiner, Values, InnerLog, Noted, Slot;
    InnerLogSize(|first|);
    var root, _ := tree.Finish();
    sigh := root;
    stored := Append(data, sigh, tpos, first, tree.hashes);
    Encoded(st, sha, data, svid, msid, tpos, first, tree.hashes);
  }

  lemma {:induction false} Encoded(st: Stray, sha: Sha, data: seq<byte>, svid: nat, msid: nat, tpos: seq<nat>,
                                   first: seq<Digest>, hashes: seq<Digest>)
    requires DATA_OFFSET < |data| && Accepted(st, data) && |first| > 1
    requires first == LeavesOf(st, sha, data, svid, msid) && Noted(st, data, tpos, |first|)
    requires hashes == Values(Joiner(sha), first, InnerLog(|first|))
    ensures |hashes| == |first| - 1
    ensures Layout(data, Root(st, sha, data, svid, msid), 0, Table(tpos, first), hashes[..|hashes| - 1])
      == Encode(st, sha, data, svid, msid, 0)
  {
    hide Leaves, Flat, Frames, Values, InnerLog, Joiner, Mth, Layout;
    InnerLogSize(|first|);
    assert Table(tpos, first) == Records(Transactions(st, data).value, first);
    assert hashes[..|hashes| - 1] == Kept(Joiner(sha), first);
  }

  function Table(tpos: seq<nat>, first: seq<Digest>): (r: seq<seq<byte>>)
    requires |tpos| == |first|
    ensures |r| == |tpos| && Width(r, 36)
  {
    seq(|tpos|, i requires 0 <= i < |tpos| => Le(tpos[i], 4) + first[i])
  }

  lemma {:induction false} FlatUpTo(chunks: seq<seq<byte>>, i: nat)
    requires i < |chunks|
    ensures Flat(chunks[..i + 1]) == Flat(chunks[..i]) + chunks[i]
  {
    hide Flat;
    FlatConcat(chunks[..i], [chunks[i]]);
    FlatOne(chunks[i]);
    assert chunks[..i + 1] == chunks[..i] + [chunks[i]];
  }

  /** The copies at the end of `hash_tree`: root, sizes, leaf table and log without the root. */
  method Append(data: seq<byte>, sigh: Digest, tpos: seq<nat>, first: seq<Digest>, hashes: seq<Digest>)
    returns (out: seq<byte>)
    requires |tpos| == |first| && |hashes| > 0
    ensures out == Layout(data, sigh, 0, Table(tpos, first), hashes[..|hashes| - 1])
  {
    hide Le, Flat;
    var hashesSize := |hashes| - 1;
    var total := |data| + 32 + 4 + 4 + 4 + (4 + 32) * |tpos| + 32 * hashesSize;
    var table: seq<byte> := [];
    assert Table(tpos, first)[..0] == [] && hashes[..0] == [];
    FlatOne([]);
    for i := 0 to |tpos|
      invariant table == Flat(Table(tpos, first)[..i])
    {
      FlatUpTo(Table(tpos, first), i);
      table := table + (Le(tpos[i], 4) + first[i]);
    }
    var log: seq<byte> := [];
    for i := 0 to hashesSize
      invariant log == Flat(hashes[..i])
    {
      FlatUpTo(hashes, i);
      log := log + hashes[i];
    }
    assert Table(tpos, first)[..|tpos|] == Table(tpos, first);
    out := data + (sigh + (Le(0, 4) + (Le(total, 4) + (Le(|tpos|, 4) + (table + log)))));
  }

  lemma NotedStart(st: Stray, data: seq<byte>)
    requires DATA_OFFSET < |data|
    ensures Noted(st, data, [4 + 64], 1)
  {
    hide Frames, Flat;
  }

  lemma {:induction false} NotedMore(st: Stray, data: seq<byte>, tpos: seq<nat>, p: nat, done: seq<seq<byte>>,
                                     tx: seq<byte>, l: nat)
    requires Walk(st, data, p, done) && Walk(st, data, p + l, done + [tx]) && Noted(st, data, tpos, |done| + 1)
    ensures Noted(st, data, tpos + [p], |done| + 2)
  {
    hide Walk, Frames, Flat, Offset;
    if Transactions(st, data).Split? {
      WalkPrefix(st, data, p, done);
      WalkPrefix(st, data, p + l, done + [tx]);
      OffsetIs(st, data, p, done, Transactions(st, data).value);
    }
  }

  /** `save_mnum`: the index of the message in its block is written over the four bytes left for it. */
  function SaveMnum(file: seq<byte>, len: nat, mnum: nat): seq<byte>
    requires len + 36 <= |file|
  {
    file[..len + 32] + Le(mnum, 4) + file[len + 36..]
  }

  lemma {:induction false} SavedMnum(st: Stray, sha: Sha, body: seq<byte>, svid: nat, msid: nat, mnum: nat, mnum': nat)
    requires DATA_OFFSET < |body| && Accepted(st, body) && |LeavesOf(st, sha, body, svid, msid)| > 1
    ensures |Encode(st, sha, body, svid, msid, mnum)| >= |body| + 36
    ensures SaveMnum(Encode(st, sha, body, svid, msid, mnum), |body|, mnum') == Encode(st, sha, body, svid, msid, mnum')
  {
    hide Le, Flat, Frames, Leaves, Kept, Root, Records;
    var leaves := LeavesOf(st, sha, body, svid, msid);
    MnumField(body, Root(st, sha, body, svid, msid), mnum, mnum',
      Records(Transactions(st, body).value, leaves), Kept(Joiner(sha), leaves));
  }

  lemma {:induction false} MnumField(body: seq<byte>, sigh: Digest, mnum: nat, mnum': nat,
                                     recs: seq<seq<byte>>, kept: seq<seq<byte>>)
    ensures |Layout(body, sigh, mnum, recs, kept)| >= |body| + 36
    ensures SaveMnum(Layout(body, sigh, mnum, recs, kept), |body|, mnum') == Layout(body, sigh, mnum', recs, kept)
  {
    hide Le, Flat;
  }

  // ---------- reading ----------

  /** The file of a message that `hash_tree` accepted, with its length in its own header. */
  ghost predicate IsStored(st: Stray, sha: Sha, file: seq<byte>, body: seq<byte>, svid: nat, msid: nat, mnum: nat) {
    && IsMessage(body, svid, msid) && Accepted(st, body) && body[1..4] == Le(|body|, 3)
    && mnum < 0x1_0000_0000
    && |LeavesOf(st, sha, body, svid, msid)| > 1 && file == Encode(st, sha, body, svid, msid, mnum)
  }

  /** The bytes of leaf `i`: the header, then the transactions. */
  function Piece(st: Stray, body: seq<byte>, i: nat): seq<byte>
    requires DATA_OFFSET < |body| && Accepted(st, body) && i <= |Transactions(st, body).value|
  {
    if i == 0 then Header(body) else Transactions(st, body).value[i - 1]
  }

  lemma {:induction false} PieceIs(st: Stray, body: seq<byte>, i: nat)
    requires DATA_OFFSET < |body| && Accepted(st, body) && i <= |Transactions(st, body).value|
    ensures var txs := Transactions(st, body).value; var pos := Offset(txs, i);
      && 0 < |Piece(st, body, i)| < |body| && pos + |Piece(st, body, i)| <= |body|
      && body[pos..pos + |Piece(st, body, i)|] == Piece(st, body, i)
      && pos + |Piece(st, body, i)| == (if i == |txs| then |body| else Offset(txs, i + 1))
  {
    hide Frames, GetSize, Flat;
    var txs := Transactions(st, body).value;
    SplitSound(st, body[DATA_OFFSET..]);
    if i == 0 {
      FlatOne([]);
      assert txs[..0] == [];
      assert txs != [];
    } else {
      FlatUpTo(txs, i - 1);
      var a, t, b := Flat(txs[..i - 1]), txs[i - 1], Flat(txs[i..]);
      assert txs == txs[..i] + txs[i..];
      FlatConcat(txs[..i], txs[i..]);
      FramedSize(st, t);
      assert body[DATA_OFFSET..] == a + (t + b);
      SliceMiddle(a, t, b);
      assert body[DATA_OFFSET + |a|..DATA_OFFSET + |a| + |t|] == body[DATA_OFFSET..][|a|..|a| + |t|];
      if i == |txs| {
        assert txs[i..] == [];
        FlatOne([]);
      }
    }
  }

  lemma {:induction false} LengthField(file: seq<byte>, body: seq<byte>)
    requires 4 <= |body| <= MAX_LENGTH && body <= file && body[1..4] == Le(|body|, 3)
    ensures FromLe(file[..4]) / 256 == |body|
  {
    assert Pow256(3) == 0x100_0000;
    LeRoundTrip(|body|, 3);
    assert file[..4] == [file[0]] + body[1..4];
    assert file[..4][1..] == body[1..4];
  }

  lemma {:induction false} Field4(v: nat)
    requires v < 0x1_0000_0000
    ensures FromLe(Le(v, 4)) == v
  {
    assert Pow256(4) == 0x1_0000_0000;
    LeRoundTrip(v, 4);
  }

  /** What the fixed fields of a stored file hold. */
  lemma {:induction false} StoredHead(st: Stray, sha: Sha, file: seq<byte>, body: seq<byte>, svid: nat, msid: nat,
                                      mnum: nat)
    requires IsStored(st, sha, file, body, svid, msid, mnum)
    ensures var b, n := |body|, |LeavesOf(st, sha, body, svid, msid)|;
      && |file| >= b + 44 && body <= file && n < 0x8000_0000
      && FromLe(file[..4]) / 256 == b
      && file[b..b + 32] == Root(st, sha, body, svid, msid)
      && FromLe(file[b + 32..b + 36]) == mnum
      && FromLe(file[b + 36..b + 40]) == |file| && FromLe(file[b + 40..b + 44]) == n
  {
    hide Le, FromLe, Flat, Frames, Leaves, Kept, Root, Layout;
    var txs, leaves := Transactions(st, body).value, LeavesOf(st, sha, body, svid, msid);
    LayoutHead(body, Root(st, sha, body, svid, msid), mnum, Records(txs, leaves), Kept(Joiner(sha), leaves));
    LengthField(file, body);
    LeafCount(st, body);
    FlatLength(Records(txs, leaves), 36);
    FlatLength(Kept(Joiner(sha), leaves), 32);
    Field4(mnum);
    Field4(|leaves|);
    Field4(|file|);
  }

  lemma {:induction false} LeafCount(st: Stray, body: seq<byte>)
    requires DATA_OFFSET < |body| <= MAX_LENGTH && Accepted(st, body)
    ensures |Transactions(st, body).value| <= |body|
  {
    hide Frames, GetSize, Flat;
    SplitSound(st, body[DATA_OFFSET..]);
    FramedCount(st, Transactions(st, body).value);
  }

  /** Table entry `i` of a stored file. */
  lemma {:induction false} StoredRecord(st: Stray, sha: Sha, file: seq<byte>, body: seq<byte>, svid: nat, msid: nat,
                                        mnum: nat, i: nat)
    requires IsStored(st, sha, file, body, svid, msid, mnum) && i < |LeavesOf(st, sha, body, svid, msid)|
    ensures var at := |body| + 44 + 36 * i; var off := Offset(Transactions(st, body).value, i);
      && at + 36 <= |file| && FromLe(file[at..at + 4]) == off
      && file[at + 4..at + 36] == LeavesOf(st, sha, body, svid, msid)[i]
  {
    hide Le, FromLe, Flat, Frames, Leaves, Kept, Root, Layout, Offset;
    var txs, leaves := Transactions(st, body).value, LeavesOf(st, sha, body, svid, msid);
    LayoutRecord(body, Root(st, sha, body, svid, msid), mnum, Records(txs, leaves), Kept(Joiner(sha), leaves), i);
    var at := |body| + 44 + 36 * i;
    var rec := Records(txs, leaves)[i];
    PieceIs(st, body, i);
    Field4(Offset(txs, i));
    assert file[at..at + 4] == file[at..at + 36][..4] == rec[..4] == Le(Offset(txs, i), 4);
    assert file[at + 4..at + 36] == file[at..at + 36][4..] == rec[4..] == leaves[i];
  }

  lemma {:induction false} StoredHolds(st: Stray, sha: Sha, file: seq<byte>, body: seq<byte>, svid: nat, msid: nat,
                                       mnum: nat)
    requires IsStored(st, sha, file, body, svid, msid, mnum)
    ensures var leaves := LeavesOf(st, sha, body, svid, msid);
      var log := |body| + 44 + 36 * |leaves|;
      Holds(file, log, log - 32, Joiner(sha), leaves)
  {
    hide Le, FromLe, Flat, Frames, Leaves, Kept, Root, Layout, Offset;
    var txs, leaves := Transactions(st, body).value, LeavesOf(st, sha, body, svid, msid);
    var recs, kept := Records(txs, leaves), Kept(Joiner(sha), leaves);
    StoredRecord(st, sha, file, body, svid, msid, mnum, |leaves| - 1);
    var log := |body| + 44 + 36 * |leaves|;
    forall i | 0 <= i < |leaves| - 2
      ensures log + 32 * i + 32 <= |file| && file[log + 32 * i..][..32] == kept[i]
    {
      LayoutKept(body, Root(st, sha, body, svid, msid), mnum, recs, kept, i);
      assert file[log + 32 * i..][..32] == file[log + 32 * i..log + 32 * i + 32];
    }
  }

  /** A read that stops at the end of the file. */
  function ReadAt(file: seq<byte>, off: nat, n: nat): seq<byte> {
    if off >= |file| then [] else if off + n <= |file| then file[off..off + n] else file[off..]
  }

  lemma ReadPart(file: seq<byte>, at: nat, n: nat, a: nat, b: nat)
    requires a <= b <= n && at + b <= |file| && at < |file|
    ensures b <= |ReadAt(file, at, n)| && ReadAt(file, at, n)[a..b] == file[at + a..at + b]
  {
    var tmp := ReadAt(file, at, n);
    assert forall i :: 0 <= i < b ==> tmp[i] == file[at + i];
  }

  /** What `tnum` needs of a leaf table that starts at `base`. */
  ghost predicate Entry(file: seq<byte>, base: nat, leaves: seq<Digest>, i: nat, off: nat) {
    && HashAt(file, base, leaves, i)
    && FromLe(file[base + 36 * i..base + 36 * i + 4]) == off
  }

  ghost predicate HashAt(file: seq<byte>, base: nat, leaves: seq<Digest>, i: nat) {
    && i < |leaves| && base + 36 * i + 36 <= |file|
    && file[base + 36 * i + 4..base + 36 * i + 36] == leaves[i]
  }

  lemma {:induction false} StoredEntry(st: Stray, sha: Sha, file: seq<byte>, body: seq<byte>, svid: nat, msid: nat,
                                       mnum: nat, i: nat)
    requires IsStored(st, sha, file, body, svid, msid, mnum) && i < |LeavesOf(st, sha, body, svid, msid)|
    ensures Entry(file, |body| + 44, LeavesOf(st, sha, body, svid, msid), i, Offset(Transactions(st, body).value, i))
  {
    hide Le, FromLe, Flat, Frames, Leaves, Encode, Offset;
    StoredRecord(st, sha, file, body, svid, msid, mnum, i);
  }

  /** Where leaf `i` ends in the message. */
  function EndOffset(st: Stray, body: seq<byte>, i: nat): nat
    requires DATA_OFFSET < |body| && Accepted(st, body) && i <= |Transactions(st, body).value|
  {
    if i == |Transactions(st, body).value| then |body| else Offset(Transactions(st, body).value, i + 1)
  }

  lemma {:induction false} StoredNear(st: Stray, sha: Sha, file: seq<byte>, body: seq<byte>, svid: nat, msid: nat,
                                      mnum: nat, i: nat)
    requires IsStored(st, sha, file, body, svid, msid, mnum) && i < |LeavesOf(st, sha, body, svid, msid)|
    ensures var leaves, txs := LeavesOf(st, sha, body, svid, msid), Transactions(st, body).value;
      && Near(file, |body|, leaves, i, Offset(txs, i), EndOffset(st, body, i))
      && 0 < EndOffset(st, body, i) - Offset(txs, i) < |body| && EndOffset(st, body, i) <= |body|
      && body[Offset(txs, i)..EndOffset(st, body, i)] == Piece(st, body, i)
  {
    hide Le, FromLe, Flat, Frames, Leaves, Encode, Offset, HashAt;
    StoredEntry(st, sha, file, body, svid, msid, mnum, i);
    if i > 0 {
      StoredEntry(st, sha, file, body, svid, msid, mnum, i - 1);
    }
    if i + 1 < |LeavesOf(st, sha, body, svid, msid)| {
      StoredEntry(st, sha, file, body, svid, msid, mnum, i + 1);
    }
    PieceIs(st, body, i);
  }

  /** The table holds entry `i`, at offsets `off` to `end` of the message, and its neighbours. */
  ghost predicate Near(file: seq<byte>, mlen: nat, leaves: seq<Digest>, i: nat, off: nat, end: nat)
  {
    && Entry(file, mlen + 44, leaves, i, off)
    && (if i == |leaves| - 1 then end == mlen else Entry(file, mlen + 44, leaves, i + 1, end))
    && (i > 0 ==> HashAt(file, mlen + 44, leaves, i - 1))
  }

  /** Position, length and first hashes of leaf `tnum`, from the leaf table. */
  method ReadLeaf(file: seq<byte>, mlen: nat, tmax: nat, tnum: nat,
                  ghost leaves: seq<Digest>, ghost off: nat, ghost end: nat)
    returns (pos: nat, len: int, hashes: seq<Digest>)
    requires tmax == |leaves| && tnum < tmax && Near(file, mlen, leaves, tnum, off, end)
    ensures pos == off && len == end - off
    ensures hashes == [leaves[tnum]] + PairSibling(leaves, tnum)
  {
    hide FromLe, ReadAt;
    var base := mlen + 32 + 4 + 4 + 4;
    if tnum % 2 == 1 {
      var at := base + 36 * tnum - 32;
      var tmp := ReadAt(file, at, 72);
      ReadPart(file, at, 72, 0, 32); ReadPart(file, at, 72, 32, 36); ReadPart(file, at, 72, 36, 68);
      pos := FromLe(tmp[32..36]);
      if tnum == tmax - 1 {
        len := mlen - pos;
      } else {
        ReadPart(file, at, 72, 68, 72);
        len := FromLe(tmp[68..72]) - pos;
      }
      hashes := [tmp[36..68], tmp[..32]];
    } else {
      var at := base + 36 * tnum;
      var tmp := ReadAt(file, at, 72);
      ReadPart(file, at, 72, 0, 4); ReadPart(file, at, 72, 4, 36);
      pos := FromLe(tmp[..4]);
      hashes := [tmp[4..36]];
      if tnum == tmax - 1 {
        len := mlen - pos;
      } else {
        ReadPart(file, at, 72, 36, 40); ReadPart(file, at, 72, 40, 72);
        len := FromLe(tmp[36..40]) - pos;
        hashes := hashes + [tmp[40..72]];
      }
    }
  }

  /**
   * `hash_tree_get` on a stored message: it finds the bytes of the leaf and the hashes the remap leads to, and
   * compares what they run to with the stored root. For the leaves that are read back they are the inclusion proof.
   */
  method HashTreeGet(ghost st: Stray, sha: Sha, file: seq<byte>, tnum: u32,
                     ghost body: seq<byte>, ghost svid: nat, ghost msid: nat, ghost saved: nat)
    returns (ok: bool, data: seq<byte>, hashes: seq<Digest>, mnum: nat)
    requires IsStored(st, sha, file, body, svid, msid, saved)
    ensures mnum == saved
    ensures tnum >= |LeavesOf(st, sha, body, svid, msid)| ==> !ok
    ensures var leaves := LeavesOf(st, sha, body, svid, msid);
      tnum < |leaves| ==>
        && data == Piece(st, body, tnum)
        && hashes == [leaves[tnum]] + TailRead(Joiner(sha), leaves, tnum)
        && (ok <==> Run(Joiner(sha), hashes) == Root(st, sha, body, svid, msid))
        && (Readable(|leaves|, tnum) ==> ok && hashes == Chain(Joiner(sha), leaves, tnum))
  {
    hide Le, FromLe, Flat, Frames, Leaves, Encode, Offset, EndOffset, Near, Holds, PathPositions, Fetched, PairSibling,
      ChainTail, Fold, Mth, Joiner, Readable, Piece;
    ghost var f, leaves, txs := Joiner(sha), LeavesOf(st, sha, body, svid, msid), Transactions(st, body).value;
    StoredHead(st, sha, file, body, svid, msid, saved);
    ok, data, hashes := false, [], [];
    var mlen := FromLe(file[..4]) / 256;
    var mhash := file[mlen..mlen + 32];
    mnum := FromLe(file[mlen + 32..mlen + 36]);
    var tmax := FromLe(file[mlen + 40..mlen + 44]);
    if tmax == 0 {
      return;
    }
    if tnum >= tmax {
      return;
    }
    StoredNear(st, sha, file, body, svid, msid, saved, tnum);
    var pos, len, first := ReadLeaf(file, mlen, tmax, tnum, leaves, Offset(txs, tnum), EndOffset(st, body, tnum));
    assert 0 < len < mlen;
    data := file[pos..pos + len];
    assert data == body[pos..pos + len];
    StoredHolds(st, sha, file, body, svid, msid, saved);
    var log := mlen + 44 + 36 * tmax;
    PathFits((tmax + 1) / 2, tnum / 2);
    var add := HashPath.HashPath(tnum / 2, (tmax + 1) / 2);
    var path := ReadSiblings(file, log, log - 32, tmax, add, f, leaves);
    hashes := first + path;
    assert hashes == [leaves[tnum]] + (PairSibling(leaves, tnum) + path);
    assert hashes == [leaves[tnum]] + TailRead(f, leaves, tnum);
    var nhash := HashPathRun(sha, hashes);
    ok := mhash == nhash;
    if Readable(|leaves|, tnum) {
      JoinCommutes(sha);
      TailIsProof(f, leaves, tnum);
      ChainProves(f, leaves, tnum);
    }
  }
}
