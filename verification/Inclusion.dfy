/** From a stored transaction to the block hash: the `get_transaction` handler and its client. */
module Inclusion {
  import opened Options
  import opened Framing
  import opened Binary
  import opened Words
  import opened MerkleTree
  import opened StoredProof
  import opened HashPath
  import opened Digests
  import opened Bytes
  import opened Messages
  import opened MessageFile
  import opened BlockFile
  import opened MerkleProof
  import ProofReader

  lemma {:induction false} XorSame(a: nat, b: nat, k: nat)
    requires a < Pow2(k) && b < Pow2(k) && Xor(a, b, k) == a
    ensures b == 0
  {
    if k > 0 {
      XorSame(a / 2, b / 2, k - 1);
    }
  }

  lemma XorByteSame(a: byte, b: byte)
    requires XorByte(a, b) == a
    ensures b == 0
  {
    hide Xor;
    Pow2Byte();
    XorSame(a, b, 8);
  }

  lemma {:induction false} LeZero(v: nat)
    requires v < 0x1_0000 && Le(v, 2)[0] == 0 && Le(v, 2)[1] == 0
    ensures v == 0
  {
    assert Le(v, 2) == [v % 256] + Le(v / 256, 1);
    assert Le(v / 256, 1) == [v / 256 % 256] + Le(v / 256 / 256, 0);
  }

  /** Mixing a nonzero node number in always changes the hash. */
  lemma {:induction false} LeafIsMixed(sha: Sha, tx: seq<byte>, svid: nat, msid: nat, tnum: nat)
    requires 0 < svid < 0x1_0000
    ensures TxLeaf(sha, tx, svid, msid, tnum) != sha(tx)
  {
    hide XorByte, Le;
    var h, leaf := sha(tx), TxLeaf(sha, tx, svid, msid, tnum);
    assert leaf[0] == XorByte(h[0], Le(svid, 2)[0]) && leaf[1] == XorByte(h[1], Le(svid, 2)[1]);
    if leaf == h {
      XorByteSame(h[0], Le(svid, 2)[0]);
      XorByteSame(h[1], Le(svid, 2)[1]);
      LeZero(svid);
    }
  }

  /** The header of an answer. */
  datatype Answer = Answer(path: nat, node: nat, msid: nat, tnum: nat)

  /** The answer names the transaction, the transaction is the one hashed first, and the hashes lead to the block. */
  predicate Confirmed(sha: Sha, svid: nat, msid: nat, tnum: nat, answer: Answer, data: seq<byte>, hashes: seq<Digest>,
                      nowhash: Option<Digest>)
    requires hashes != []
  {
    && answer.path != 0 && answer == Answer(answer.path, svid, msid, tnum) && nowhash.Some?
    && hashes[0] == TxLeaf(sha, data, svid, msid, tnum) && Run(Joiner(sha), hashes) == nowhash.value
  }

  /** `checkMessageHash`: the client, with the hash of the block if it could load it. */
  method CheckMessageHash(sha: Sha, svid: nat, msid: nat, tnum: nat, answer: Answer, data: seq<byte>,
                          hashes: seq<Digest>, nowhash: Option<Digest>)
    returns (ok: bool)
    requires hashes != []
    ensures ok == Confirmed(sha, svid, msid, tnum, answer, data, hashes, nowhash)
  {
    hide TxLeaf, Run, Joiner;
    if answer.path == 0 {
      return false;
    }
    if answer.node != svid || answer.msid != msid || answer.tnum != tnum {
      return false;
    }
    if nowhash.None? {
      return false;
    }
    var nhash := TxLeaf(sha, data, svid, msid, tnum);
    if nhash != hashes[0] {
      return false;
    }
    nhash := ProofReader.HashPathRun(sha, hashes);
    ok := nhash == nowhash.value;
  }

  /**
   * Server and client together, for leaf `tnum` of message `k` of a sealed block at `path`: the server answers
   * for every leaf that can be read back, and the client then accepts every transaction.
   * The message header, leaf 0, is served but never accepted: its hash has no identifiers mixed in.
   */
  method GetTransaction(ghost st: Stray, block: Block, path: nat, lastPath: nat, list: seq<byte>, file: seq<byte>,
                        svid: nat, msid: nat, tnum: u32, ghost msgs: seq<Entry>, ghost k: nat, ghost body: seq<byte>)
    returns (served: bool, accepted: bool, data: seq<byte>)
    requires tnum < 0x1_0000
    requires Fits(msgs) && list == ListFile(block.sha, msgs) && block.Sealed()
    requires block.msg == |msgs| && block.msghash == MsgHash(block.sha, msgs)
    requires k < |msgs| && IsStored(st, block.sha, file, body, svid, msid, k + 1)
    requires msgs[k] == Entry(svid, msid, Root(st, block.sha, body, svid, msid))
    ensures served ==> 0 < path <= lastPath
    ensures accepted ==> served && 0 < tnum < |LeavesOf(st, block.sha, body, svid, msid)|
    ensures accepted ==> data == Piece(st, body, tnum)
    ensures var n := |LeavesOf(st, block.sha, body, svid, msid)|;
      0 < path <= lastPath && tnum < n && Readable(n, tnum) && Readable(|msgs|, k)
      ==> served && (accepted <==> tnum > 0)
  {
    hide *;
    var sha := block.sha;
    StoredBody(st, sha, file, body, svid, msid, k + 1);
    ghost var leaves := LeavesOf(st, sha, body, svid, msid);
    served, accepted, data := false, false, [];
    if path == 0 || path > lastPath {
      return;
    }
    var ok, tx, hashes, mnum := HashTreeGet(st, sha, file, tnum, body, svid, msid, k + 1);
    data := tx;
    if !ok {
      return;
    }
    LeafIs(st, sha, body, svid, msid, tnum);
    LeafIsMixed(sha, data, svid, msid, tnum);
    if Readable(|leaves|, tnum) {
      JoinCommutes(sha);
      ChainProves(Joiner(sha), leaves, tnum);
    }
    ok, hashes := block.MsglHashTreeGet(svid, msid, mnum, hashes, list, msgs);
    if !ok {
      return;
    }
    served := true;
    var answer := Answer(path, svid, msid, tnum);
    accepted := CheckMessageHash(sha, svid, msid, tnum, answer, data, hashes, Some(block.nowhash));
    ConfirmedIs(sha, svid, msid, tnum, answer, data, hashes, Some(block.nowhash));
  }

  lemma StoredBody(st: Stray, sha: Sha, file: seq<byte>, body: seq<byte>, svid: nat, msid: nat, mnum: nat)
    requires IsStored(st, sha, file, body, svid, msid, mnum)
    ensures DATA_OFFSET < |body| && Accepted(st, body) && 0 < svid < 0x1_0000
  {
    hide Encode, Accepted, Leaves;
  }

  lemma ConfirmedIs(sha: Sha, svid: nat, msid: nat, tnum: nat, answer: Answer, data: seq<byte>, hashes: seq<Digest>,
                    nowhash: Option<Digest>)
    requires hashes != []
    ensures Confirmed(sha, svid, msid, tnum, answer, data, hashes, nowhash) <==>
      && answer.path != 0 && answer == Answer(answer.path, svid, msid, tnum) && nowhash.Some?
      && hashes[0] == TxLeaf(sha, data, svid, msid, tnum) && Run(Joiner(sha), hashes) == nowhash.value
  {
    hide TxLeaf, Run, Joiner;
  }

  lemma LeafIs(st: Stray, sha: Sha, body: seq<byte>, svid: nat, msid: nat, i: nat)
    requires DATA_OFFSET < |body| && Accepted(st, body)
    ensures i < |LeavesOf(st, sha, body, svid, msid)| ==>
      LeavesOf(st, sha, body, svid, msid)[i] ==
        if i == 0 then sha(Piece(st, body, i)) else TxLeaf(sha, Piece(st, body, i), svid, msid, i % 0x1_0000)
  {
    hide TxLeaf, Transactions;
  }

  // ---------- publishing ----------

  datatype Message = Message(svid: nat, msid: nat, body: seq<byte>)

  /** A message the hashers accept, with its length in its own header. */
  ghost predicate Sound(st: Stray, m: Message) {
    && IsMessage(m.body, m.svid, m.msid) && Accepted(st, m.body) && m.body[1..4] == Le(|m.body|, 3)
  }

  function EntryOf(st: Stray, sha: Sha, m: Message): Entry
    requires DATA_OFFSET < |m.body| && Accepted(st, m.body)
  {
    Entry(m.svid, m.msid, Root(st, sha, m.body, m.svid, m.msid))
  }

  /** What an answer about a message of the block is read from. */
  ghost predicate Published(st: Stray, sha: Sha, m: Message, e: Entry, file: seq<byte>, mnum: nat) {
    && IsStored(st, sha, file, m.body, m.svid, m.msid, mnum)
    && e == Entry(m.svid, m.msid, Root(st, sha, m.body, m.svid, m.msid))
  }

  /** A message hashed and stored, before it has an index. */
  method Keep(st: Stray, sha: Sha, m: Message, behind: seq<byte>) returns (e: Entry, file: seq<byte>)
    requires Sound(st, m)
    ensures e == EntryOf(st, sha, m)
    ensures |LeavesOf(st, sha, m.body, m.svid, m.msid)| > 1 && file == Encode(st, sha, m.body, m.svid, m.msid, 0)
    ensures |m.body| + 36 <= |file|
  {
    hide Encode, Root, Accepted, Leaves;
    var ends, ok, sigh, stored := HashTreeFull(st, sha, m.body, behind, m.svid, m.msid);
    e, file := Entry(m.svid, m.msid, sigh), stored;
    SavedMnum(st, sha, m.body, m.svid, m.msid, 0, 0);
  }

  /**
   * All messages hashed, the list put and the block sealed: what the node leaves on disk is what its answers
   * are read from.
   */
  method Publish(st: Stray, block: Block, ms: seq<Message>, behind: seq<byte>)
    returns (list: seq<byte>, files: seq<seq<byte>>, msgs: seq<Entry>)
    requires |ms| < 0x8000_0000 && forall i :: 0 <= i < |ms| ==> Sound(st, ms[i])
    modifies block
    ensures |msgs| == |files| == |ms| && Fits(msgs) && list == ListFile(block.sha, msgs)
    ensures block.Sealed() && block.Headed() && block.msg == |msgs| && block.msghash == MsgHash(block.sha, msgs)
    ensures forall i :: 0 <= i < |ms| ==> Published(st, block.sha, ms[i], msgs[i], files[i], i + 1)
  {
    hide *;
    var sha := block.sha;
    var lens: seq<nat> := [];
    msgs, files := [], [];
    for i := 0 to |ms|
      invariant |msgs| == |files| == |lens| == i
      invariant forall j :: 0 <= j < i ==> Kept(st, sha, ms[j], msgs[j], lens[j], files[j])
    {
      var e, file := Keep(st, sha, ms[i], behind);
      KeptBy(st, sha, ms[i], e, file);
      msgs, files, lens := msgs + [e], files + [file], lens + [|ms[i].body|];
    }
    forall i | 0 <= i < |ms|
      ensures lens[i] + 36 <= |files[i]| && msgs[i].svid < 0x1_0000 && msgs[i].msid < 0x1_0000_0000
    {
      KeptParts(st, sha, ms[i], msgs[i], lens[i], files[i], i + 1);
    }
    FitsBy(msgs);
    var ok, saved;
    var states := seq(|ms|, _ => State(3, true, true));
    AllIndexed(states);
    ok, list, saved := block.MsglPut(msgs, lens, files, states, None);
    forall i | 0 <= i < |ms|
      ensures Published(st, sha, ms[i], msgs[i], saved[i], i + 1)
    {
      KeptParts(st, sha, ms[i], msgs[i], lens[i], files[i], i + 1);
    }
    files := saved;
    block.HashNow();
  }

  ghost predicate Kept(st: Stray, sha: Sha, m: Message, e: Entry, len: nat, file: seq<byte>) {
    && Sound(st, m) && e == EntryOf(st, sha, m) && len == |m.body|
    && |LeavesOf(st, sha, m.body, m.svid, m.msid)| > 1 && file == Encode(st, sha, m.body, m.svid, m.msid, 0)
  }

  lemma KeptBy(st: Stray, sha: Sha, m: Message, e: Entry, file: seq<byte>)
    requires Sound(st, m) && e == EntryOf(st, sha, m)
    requires |LeavesOf(st, sha, m.body, m.svid, m.msid)| > 1 && file == Encode(st, sha, m.body, m.svid, m.msid, 0)
    ensures Kept(st, sha, m, e, |m.body|, file)
  {
    hide Encode, EntryOf, Leaves, Accepted;
  }

  lemma {:induction false} KeptParts(st: Stray, sha: Sha, m: Message, e: Entry, len: nat, file: seq<byte>, mnum: nat)
    requires Kept(st, sha, m, e, len, file) && mnum < 0x1_0000_0000
    ensures e.svid < 0x1_0000 && e.msid < 0x1_0000_0000
    ensures len + 36 <= |file| && Published(st, sha, m, e, SaveMnum(file, len, mnum), mnum)
  {
    hide Encode, Root, Leaves, Accepted, SaveMnum;
    SavedMnum(st, sha, m.body, m.svid, m.msid, 0, mnum);
  }

  lemma AllIndexed(states: seq<State>)
    requires forall i :: 0 <= i < |states| ==> states[i] == State(3, true, true)
    ensures forall i :: 0 <= i < |states| ==> Indexed(states[i])
  {
  }

  lemma FitsBy(msgs: seq<Entry>)
    requires |msgs| < 0x8000_0000
    requires forall i :: 0 <= i < |msgs| ==> msgs[i].svid < 0x1_0000 && msgs[i].msid < 0x1_0000_0000
    ensures Fits(msgs)
  {
  }
}
