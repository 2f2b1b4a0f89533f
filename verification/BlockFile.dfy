/** The message list of a block: `servers::msgl_put`, `msgl_hash_tree_get` and `hashnow`. */
module BlockFile {
  import opened Options
  import opened Binary
  import opened MerkleTree
  import opened MerkleLog
  import opened HashPath
  import opened MerkleProof
  import opened StoredProof
  import opened Digests
  import opened Bytes
  import opened HashTree
  import opened ProofReader
  import opened MessageFile

  /** A message of the block: author, number and root of its hash tree. */
  datatype Entry = Entry(svid: nat, msid: nat, sigh: Digest)

  /** The type of a message and the marks of its state that `save_mnum` looks at. */
  datatype State = State(kind: nat, saved: bool, valid: bool)

  /** `save_mnum` writes only into the file of an ordinary message that was saved; such a message must be valid. */
  predicate Indexed(s: State) {
    s.kind == 3 && s.saved
  }

  ghost predicate Fits(msgs: seq<Entry>) {
    && |msgs| < 0x8000_0000
    && forall i :: 0 <= i < |msgs| ==> msgs[i].svid < 0x1_0000 && msgs[i].msid < 0x1_0000_0000
  }

  function Sighs(msgs: seq<Entry>): (r: seq<Digest>)
    ensures |r| == |msgs|
  {
    seq(|msgs|, i requires 0 <= i < |msgs| => msgs[i].sigh)
  }

  function MsgHash(sha: Sha, msgs: seq<Entry>): Digest {
    if msgs == [] then seq(32, _ => 0) else Mth(Joiner(sha), Sighs(msgs))
  }

  function Row(e: Entry): (r: seq<byte>)
    ensures |r| == 38
  {
    Le(e.svid, 2) + (Le(e.msid, 4) + e.sigh)
  }

  function Rows(msgs: seq<Entry>): (r: seq<seq<byte>>)
    ensures |r| == |msgs| && Width(r, 38)
  {
    seq(|msgs|, i requires 0 <= i < |msgs| => Row(msgs[i]))
  }

  function KeptLog(sha: Sha, msgs: seq<Entry>): (r: seq<seq<byte>>)
    ensures |r| == (if |msgs| > 1 then |msgs| - 2 else 0) && Width(r, 32)
  {
    if |msgs| > 1 then Kept(Joiner(sha), Sighs(msgs)) else []
  }

  /** `msglist.dat` */
  function ListFile(sha: Sha, msgs: seq<Entry>): seq<byte> {
    var kept := KeptLog(sha, msgs);
    Le(|msgs|, 4) + (MsgHash(sha, msgs) + (Flat(Rows(msgs)) + (Le(|kept|, 4) + Flat(kept))))
  }

  /** The entry numbered `i` on disk. */
  lemma {:induction false} RowAt(sha: Sha, msgs: seq<Entry>, i: nat)
    requires i < |msgs|
    ensures var file := ListFile(sha, msgs); var at := 36 + 38 * i;
      && at + 38 <= |file| && file[at..at + 2] == Le(msgs[i].svid, 2)
      && file[at + 2..at + 6] == Le(msgs[i].msid, 4) && file[at + 6..at + 38] == msgs[i].sigh
  {
    hide Le, Flat, MsgHash, KeptLog;
    var file, kept := ListFile(sha, msgs), KeptLog(sha, msgs);
    FlatAt(Rows(msgs), 38, i);
    assert file[36..] == Flat(Rows(msgs)) + (Le(|kept|, 4) + Flat(kept));
    SubSlice(file, 36, 38 * i, 38, Flat(Rows(msgs)), Le(|kept|, 4) + Flat(kept));
    var at := 36 + 38 * i;
    assert file[at..at + 38] == Row(msgs[i]);
    SliceSlice(file, at, at + 38, 0, 2);
    SliceSlice(file, at, at + 38, 2, 6);
    SliceSlice(file, at, at + 38, 6, 38);
  }

  lemma {:induction false} ListHolds(sha: Sha, msgs: seq<Entry>)
    requires msgs != []
    ensures var log := 36 + 38 * |msgs| + 4;
      Holds(ListFile(sha, msgs), log, log - 36, Joiner(sha), Sighs(msgs))
  {
    hide Le, Flat, MsgHash, Joiner, Kept;
    var file, kept := ListFile(sha, msgs), KeptLog(sha, msgs);
    var log := 36 + 38 * |msgs| + 4;
    RowAt(sha, msgs, |msgs| - 1);
    FlatLength(Rows(msgs), 38);
    assert file[log..] == Flat(kept) + [];
    forall i | 0 <= i < |kept|
      ensures log + 32 * i + 32 <= |file| && file[log + 32 * i..][..32] == kept[i]
    {
      FlatAt(kept, 32, i);
      SubSlice(file, log, 32 * i, 32, Flat(kept), []);
      assert file[log + 32 * i..][..32] == file[log + 32 * i..log + 32 * i + 32];
    }
  }

  function Counters(now: nat, msg: nat, nod: nat, div: nat): (r: seq<byte>)
    ensures |r| == 16
  {
    Le(now, 4) + Le(msg, 4) + Le(nod, 4) + Le(div, 4)
  }

  /** The four counters stand in this order. */
  lemma {:induction false} CountersAre(now: nat, msg: nat, nod: nat, div: nat)
    requires now < 0x1_0000_0000 && msg < 0x1_0000_0000 && nod < 0x1_0000_0000 && div < 0x1_0000_0000
    ensures var c := Counters(now, msg, nod, div);
      FromLe(c[0..4]) == now && FromLe(c[4..8]) == msg && FromLe(c[8..12]) == nod && FromLe(c[12..16]) == div
  {
    var c := Counters(now, msg, nod, div);
    assert c[0..4] == Le(now, 4) && c[4..8] == Le(msg, 4) && c[8..12] == Le(nod, 4) && c[12..16] == Le(div, 4);
    hide Le, FromLe, Counters;
    Field4(now);
    Field4(msg);
    Field4(nod);
    Field4(div);
  }

  /** What the list file holds besides its rows: the count, the root, and the size of the kept log. */
  lemma {:induction false} ListHead(sha: Sha, msgs: seq<Entry>)
    requires |msgs| < 0x8000_0000
    ensures var file, end := ListFile(sha, msgs), 36 + 38 * |msgs|;
      && |file| >= end + 4 && FromLe(file[..4]) == |msgs| && file[4..36] == MsgHash(sha, msgs)
      && FromLe(file[end..end + 4]) == (if |msgs| > 1 then |msgs| - 2 else 0)
  {
    hide Le, FromLe, Flat, MsgHash;
    var file, kept := ListFile(sha, msgs), KeptLog(sha, msgs);
    FlatLength(Rows(msgs), 38);
    Field4(|msgs|);
    Field4(|kept|);
    var end := 36 + 38 * |msgs|;
    assert file[..4] == Le(|msgs|, 4) && file[4..36] == MsgHash(sha, msgs) && file[end..end + 4] == Le(|kept|, 4);
  }

  /** The block header fields of `class servers`. */
  class Block {
    const sha: Sha
    var now: nat
    var msg: nat
    var nod: nat
    var div: nat
    var oldhash: Digest
    var minhash: Digest
    var msghash: Digest
    var nodhash: Digest
    var viphash: Digest
    var nowhash: Digest

    constructor (sha: Sha)
      ensures this.sha == sha
    {
      this.sha := sha;
      now, msg, nod, div := 0, 0, 0, 0;
      var zero: Digest := seq(32, _ => 0);
      oldhash, minhash, msghash, nodhash, viphash, nowhash := zero, zero, zero, zero, zero, zero;
    }

    /** `nowhash` commits to the messages last, right above `minhash`. */
    ghost predicate Sealed()
      reads this
    {
      nowhash == Join(sha, minhash, msghash)
    }

    /** `minhash` commits to the counters, the nodes, the VIP keys and the previous block. */
    ghost predicate Headed()
      reads this
    {
      minhash == Join(sha, Join(sha, Join(sha, sha(Counters(now, msg, nod, div)), nodhash), viphash), oldhash)
    }

    /** `hashnow`: the header hash over counters, nodes, VIP keys and the previous block, then the messages. */
    method HashNow()
      modifies this`nowhash, this`minhash
      ensures Sealed() && Headed()
      ensures nowhash == Run(Joiner(sha), [sha(Counters(now, msg, nod, div)), nodhash, viphash, oldhash, msghash])
    {
      RunFive(sha, sha(Counters(now, msg, nod, div)), nodhash, viphash, oldhash, msghash);
      nowhash := sha(Counters(now, msg, nod, div));
      nowhash := AddHash(sha, nowhash, nodhash);
      nowhash := AddHash(sha, nowhash, viphash);
      nowhash := AddHash(sha, nowhash, oldhash);
      minhash := nowhash;
      nowhash := AddHash(sha, nowhash, msghash);
    }

    /**
     * `msgl_put`: the root of the messages, checked against `cmphash`, and the list file. The files of the messages,
     * whose lengths are `lens`, get their index in the list if the message is an ordinary one and was saved.
     */
    method MsglPut(msgs: seq<Entry>, lens: seq<nat>, files: seq<seq<byte>>, states: seq<State>, cmphash: Option<Digest>)
      returns (ok: bool, file: seq<byte>, saved: seq<seq<byte>>)
      requires Fits(msgs) && |lens| == |files| == |states| == |msgs|
      requires forall i :: 0 <= i < |files| && Indexed(states[i]) ==> states[i].valid && lens[i] + 36 <= |files[i]|
      modifies this`msg, this`msghash
      ensures msg == |msgs| && msghash == MsgHash(sha, msgs)
      ensures ok == (cmphash.None? || cmphash.value == msghash)
      ensures ok ==> file == ListFile(sha, msgs)
      ensures |saved| == |files|
      ensures forall i :: 0 <= i < |files| ==>
        saved[i] == if ok && Indexed(states[i]) then SaveMnum(files[i], lens[i], i + 1) else files[i]
    {
      hide Pow2, Flat, Le, Mth, Joiner, Slot, Inner, Values, InnerLog, SaveMnum, Indexed;
      file, saved := [], files;
      var tree := new HashTree(sha);
      assert |msgs| + 1 < Pow2(32) by { Pow2Values(); }
      for i := 0 to |msgs|
        invariant fresh(tree) && fresh(tree.slots) && fresh(tree.loaded) && tree.Valid() && tree.sha == sha
        invariant tree.leaves == Sighs(msgs[..i])
      {
        assert Sighs(msgs[..i + 1]) == Sighs(msgs[..i]) + [msgs[i].sigh];
        var _ := tree.Update(msgs[i].sigh);
      }
      assert msgs[..|msgs|] == msgs;
      msg := |msgs|;
      var root, _ := tree.Finish();
      msghash := root;
      if cmphash.Some? && cmphash.value != msghash {
        return false, file, saved;
      }
      LogDropped(sha, msgs, tree.hashes);
      file := WriteList(msgs, msghash, tree.hashes);
      saved := SaveIndices(lens, files, states);
      return true, file, saved;
    }

    /**
     * `msgl_hash_tree_get` on the list file of this block: continues a proof that ends at message
     * `mnum - 1` up to `msghash` and, with `minhash`, to `nowhash`.
     */
    method MsglHashTreeGet(svid: nat, msid: nat, mnum: nat, hashes0: seq<Digest>, file: seq<byte>,
                           ghost msgs: seq<Entry>)
      returns (ok: bool, hashes: seq<Digest>)
      requires Fits(msgs) && file == ListFile(sha, msgs) && msg == |msgs| && msghash == MsgHash(sha, msgs)
      requires mnum <= |msgs| && hashes0 != [] && Sealed()
      ensures var found := mnum > 0 && msgs[mnum - 1].svid == svid && msgs[mnum - 1].msid == msid;
        var read := if found then hashes0 + TailRead(Joiner(sha), Sighs(msgs), mnum - 1) else hashes0;
        && (ok <==> found && Run(Joiner(sha), read) == msghash)
        && hashes == (if ok then read + [minhash] else read)
        && (ok ==> Run(Joiner(sha), hashes) == nowhash)
      ensures mnum > 0 && msgs[mnum - 1].svid == svid && msgs[mnum - 1].msid == msid
        && Readable(|msgs|, mnum - 1) && Run(Joiner(sha), hashes0) == msgs[mnum - 1].sigh
        ==> ok && hashes == hashes0 + ChainTail(Joiner(sha), Sighs(msgs), mnum - 1) + [minhash]
    {
      hide Le, FromLe, Flat, PathPositions, Fetched, Fold, Mth, Joiner, Readable, Holds, ListFile, Less, ChainTail,
        PairSibling;
      ok, hashes := false, hashes0;
      if mnum == 0 {
        return;
      }
      var k := mnum - 1;
      ghost var f, leaves := Joiner(sha), Sighs(msgs);
      var found, sibling := ReadRow(svid, msid, k, msg, file, sha, msgs);
      if !found {
        return;
      }
      ListHolds(sha, msgs);
      PathFits((msg + 1) / 2, k / 2);
      var add := HashPath.HashPath(k / 2, (msg + 1) / 2);
      OnePath();
      var log := 4 + 32 + 38 * msg + 4;
      var path := ReadSiblings(file, log, log - 36, msg, add, f, leaves);
      hashes := hashes + (sibling + path);
      assert hashes == hashes0 + TailRead(f, leaves, k);
      var nhash := HashPathRun(sha, hashes);
      JoinCommutes(sha);
      if Readable(|msgs|, k) && Run(f, hashes0) == leaves[k] {
        TailIsProof(f, leaves, k);
        ChainContinues(f, hashes0, leaves, k);
      }
      if msghash != nhash {
        return;
      }
      RunMore(sha, hashes, minhash);
      JoinSwap(sha, msghash, minhash);
      hashes := hashes + [minhash];
      nhash := AddHash(sha, nhash, minhash);
      ok := nowhash == nhash;
    }
  }

  /** `save_mnum` for every message of the list. */
  method SaveIndices(lens: seq<nat>, files: seq<seq<byte>>, states: seq<State>) returns (saved: seq<seq<byte>>)
    requires |lens| == |files| == |states|
    requires forall i :: 0 <= i < |files| && Indexed(states[i]) ==> states[i].valid && lens[i] + 36 <= |files[i]|
    ensures |saved| == |files|
    ensures forall i :: 0 <= i < |files| ==>
      saved[i] == if Indexed(states[i]) then SaveMnum(files[i], lens[i], i + 1) else files[i]
    ensures forall i :: 0 <= i < |files| && (states[i].kind != 3 || !states[i].saved) ==> saved[i] == files[i]
  {
    hide SaveMnum;
    saved := files;
    for i := 0 to |files|
      invariant |saved| == |files|
      invariant forall j :: 0 <= j < i ==>
        saved[j] == if Indexed(states[j]) then SaveMnum(files[j], lens[j], j + 1) else files[j]
      invariant forall j :: i <= j < |files| ==> saved[j] == files[j]
    {
      if Indexed(states[i]) {
        saved := saved[i := SaveMnum(files[i], lens[i], i + 1)];
      }
    }
  }

  lemma JoinSwap(sha: Sha, a: Digest, b: Digest)
    ensures Join(sha, a, b) == Join(sha, b, a)
  {
    LessTotal(a, b);
  }

  lemma SiblingIs(msgs: seq<Entry>, k: nat)
    requires k < |msgs|
    ensures k % 2 == 1 ==> PairSibling(Sighs(msgs), k) == [msgs[k - 1].sigh]
    ensures k % 2 == 0 && k + 1 < |msgs| ==> PairSibling(Sighs(msgs), k) == [msgs[k + 1].sigh]
    ensures k % 2 == 0 && k + 1 == |msgs| ==> PairSibling(Sighs(msgs), k) == []
  {
  }

  /** The entry of message `k` and the root of its neighbour, from the list file. */
  method ReadRow(svid: nat, msid: nat, k: nat, msg: nat, file: seq<byte>, ghost sha: Sha, ghost msgs: seq<Entry>)
    returns (found: bool, sibling: seq<Digest>)
    requires Fits(msgs) && file == ListFile(sha, msgs) && msg == |msgs| && k < msg
    ensures found == (msgs[k].svid == svid && msgs[k].msid == msid)
    ensures found ==> sibling == PairSibling(Sighs(msgs), k)
  {
    hide *;
    SiblingIs(msgs, k);
    RowFields(msgs, k);
    found, sibling := false, [];
    if k % 2 == 1 {
      OddRow(sha, msgs, k);
      var at := 4 + 32 + 38 * k - 32;
      if FromLe(file[at + 32..at + 34]) != svid || FromLe(file[at + 34..at + 38]) != msid {
        return;
      }
      sibling := [file[at..at + 32]];
    } else {
      EvenRow(sha, msgs, k);
      var at := 4 + 32 + 38 * k;
      if FromLe(file[at..at + 2]) != svid || FromLe(file[at + 2..at + 6]) != msid {
        return;
      }
      if k < msg - 1 {
        sibling := [file[at + 44..at + 76]];
      }
    }
    found := true;
  }

  /** Read 32 bytes early, the entry has the root of the one before it in front. */
  lemma {:induction false} OddRow(sha: Sha, msgs: seq<Entry>, k: nat)
    requires 0 < k < |msgs|
    ensures var file := ListFile(sha, msgs); var at := 4 + 32 + 38 * k - 32;
      && at + 38 <= |file| && file[at + 32..at + 34] == Le(msgs[k].svid, 2)
      && file[at + 34..at + 38] == Le(msgs[k].msid, 4) && file[at..at + 32] == msgs[k - 1].sigh
  {
    hide *;
    RowAt(sha, msgs, k);
    RowAt(sha, msgs, k - 1);
    var at := 4 + 32 + 38 * k - 32;
    assert at + 32 == 36 + 38 * k && at == 36 + 38 * (k - 1) + 6;
  }

  lemma {:induction false} EvenRow(sha: Sha, msgs: seq<Entry>, k: nat)
    requires k < |msgs|
    ensures var file := ListFile(sha, msgs); var at := 4 + 32 + 38 * k;
      && at + 38 <= |file| && file[at..at + 2] == Le(msgs[k].svid, 2) && file[at + 2..at + 6] == Le(msgs[k].msid, 4)
      && (k + 1 < |msgs| ==> at + 76 <= |file| && file[at + 44..at + 76] == msgs[k + 1].sigh)
  {
    hide *;
    RowAt(sha, msgs, k);
    var at := 4 + 32 + 38 * k;
    if k + 1 < |msgs| {
      RowAt(sha, msgs, k + 1);
      assert at + 44 == 36 + 38 * (k + 1) + 6;
    }
  }

  lemma {:induction false} RowFields(msgs: seq<Entry>, i: nat)
    requires Fits(msgs) && i < |msgs|
    ensures FromLe(Le(msgs[i].svid, 2)) == msgs[i].svid && FromLe(Le(msgs[i].msid, 4)) == msgs[i].msid
  {
    assert Pow256(2) == 0x1_0000 && Pow256(4) == 0x1_0000_0000;
    hide Le, FromLe;
    LeRoundTrip(msgs[i].svid, 2);
    LeRoundTrip(msgs[i].msid, 4);
  }

  lemma OnePath()
    ensures PathPositions(1, 0, 0) == []
  {
  }

  lemma {:induction false} RunMore(sha: Sha, hashes: seq<Digest>, h: Digest)
    requires hashes != []
    ensures Run(Joiner(sha), hashes + [h]) == Join(sha, Run(Joiner(sha), hashes), h)
  {
    hide Fold;
    assert (hashes + [h])[1..] == hashes[1..] + [h];
    FoldConcat(Joiner(sha), hashes[0], hashes[1..], [h]);
    FoldShort(Joiner(sha), Run(Joiner(sha), hashes), [h]);
  }

  lemma {:induction false} RunFive(sha: Sha, a: Digest, b: Digest, c: Digest, d: Digest, e: Digest)
    ensures Run(Joiner(sha), [a, b, c, d, e]) == Join(sha, Join(sha, Join(sha, Join(sha, a, b), c), d), e)
  {
    assert [a][1..] == [];
    assert Run(Joiner(sha), [a]) == a;
    hide *;
    RunMore(sha, [a], b);
    RunMore(sha, [a] + [b], c);
    RunMore(sha, [a] + [b] + [c], d);
    RunMore(sha, [a] + [b] + [c] + [d], e);
    assert [a] + [b] + [c] + [d] + [e] == [a, b, c, d, e];
  }

  /** The writes of `msgl_put`: counts, root, one row for each message and the log without its root. */
  method WriteList(msgs: seq<Entry>, msghash: Digest, hashes: seq<Digest>) returns (file: seq<byte>)
    ensures var kept := if |hashes| == 0 then [] else hashes[..|hashes| - 1];
      file == Le(|msgs|, 4) + (msghash + (Flat(Rows(msgs)) + (Le(|kept|, 4) + Flat(kept))))
  {
    hide Flat, Le;
    var table: seq<byte> := [];
    FlatOne([]);
    assert Rows(msgs)[..0] == [] && hashes[..0] == [];
    for i := 0 to |msgs|
      invariant table == Flat(Rows(msgs)[..i])
    {
      FlatUpTo(Rows(msgs), i);
      table := table + (Le(msgs[i].svid, 2) + (Le(msgs[i].msid, 4) + msgs[i].sigh));
    }
    assert Rows(msgs)[..|msgs|] == Rows(msgs);
    var hashesSize := if |hashes| == 0 then 0 else |hashes| - 1;
    var log: seq<byte> := [];
    for i := 0 to hashesSize
      invariant log == Flat(hashes[..i])
    {
      FlatUpTo(hashes, i);
      log := log + hashes[i];
    }
    file := Le(|msgs|, 4) + (msghash + (table + (Le(hashesSize, 4) + log)));
  }

  lemma {:induction false} LogDropped(sha: Sha, msgs: seq<Entry>, hashes: seq<Digest>)
    requires hashes == if msgs == [] then [] else Values(Joiner(sha), Sighs(msgs), InnerLog(|msgs|))
    ensures (if |hashes| == 0 then [] else hashes[..|hashes| - 1]) == KeptLog(sha, msgs)
    ensures |hashes| == if msgs == [] then 0 else |msgs| - 1
  {
    hide InnerLog, Joiner, Node;
    if msgs != [] {
      InnerLogSize(|msgs|);
    }
  }
}
