/** What a confirmed answer binds the client to. */
module Binding {
  import opened Options
  import opened Framing
  import opened Binary
  import opened Words
  import opened MerkleTree
  import opened MerkleProof
  import opened StoredProof
  import opened Digests
  import opened Bytes
  import opened Messages
  import opened MessageFile
  import opened BlockFile
  import opened Collisions
  import opened Inclusion

  // ---------- leaves ----------

  lemma {:induction false} XorApart(a: nat, b: nat, x: nat, k: nat)
    requires a < Pow2(k) && b < Pow2(k) && Xor(a, x, k) == Xor(b, x, k)
    ensures a == b
  {
    hide *;
    Pow2Step(0);
    if k > 0 {
      Pow2Step(k - 1);
      XorStep(a, x, k - 1);
      XorStep(b, x, k - 1);
      SameBits(Xor(a / 2, x / 2, k - 1), Xor(b / 2, x / 2, k - 1), a, b, x);
      XorApart(a / 2, b / 2, x / 2, k - 1);
    }
  }

  lemma SameBits(p: nat, q: nat, a: nat, b: nat, x: nat)
    requires (a + x) % 2 + 2 * p == (b + x) % 2 + 2 * q
    ensures p == q && a % 2 == b % 2
  {
  }

  lemma XorByteApart(a: byte, b: byte, x: byte)
    requires XorByte(a, x) == XorByte(b, x)
    ensures a == b
  {
    hide Xor;
    Pow2Byte();
    XorApart(a, b, x, 8);
  }

  lemma {:induction false} XorIntoApart(a: Digest, b: Digest, off: nat, v: nat, w: nat)
    requires off + w <= 32 && XorInto(a, off, v, w) == XorInto(b, off, v, w)
    ensures a == b
  {
    hide XorByte, Le;
    forall i | 0 <= i < 32 ensures a[i] == b[i] {
      assert XorInto(a, off, v, w)[i] == XorInto(b, off, v, w)[i];
      if off <= i < off + w {
        XorByteApart(a[i], b[i], Le(v, w)[i - off]);
      }
    }
  }

  /** The same identifiers keep different hashes apart. */
  lemma {:induction false} LeafApart(sha: Sha, data: seq<byte>, data': seq<byte>, svid: nat, msid: nat, tnum: nat)
    requires TxLeaf(sha, data, svid, msid, tnum) == TxLeaf(sha, data', svid, msid, tnum)
    ensures sha(data) == sha(data')
  {
    hide XorInto;
    var a, b := XorInto(sha(data), 0, svid, 2), XorInto(sha(data'), 0, svid, 2);
    XorIntoApart(XorInto(a, 4, msid, 4), XorInto(b, 4, msid, 4), 8, tnum, 2);
    XorIntoApart(a, b, 4, msid, 4);
    XorIntoApart(sha(data), sha(data'), 0, svid, 2);
  }

  lemma XorByteBack(h: byte, x: byte, y: byte)
    requires XorByte(h, x) == XorByte(h, y)
    ensures x == y
  {
    hide Xor;
    Pow2Byte();
    XorXor(h, x, 8);
    XorXor(h, y, 8);
  }

  lemma {:induction false} FieldApart(h: Digest, off: nat, v: nat, v': nat, w: nat)
    requires off + w <= 32 && v < Pow256(w) && v' < Pow256(w)
    requires forall i :: 0 <= i < w ==> XorByte(h[off + i], Le(v, w)[i]) == XorByte(h[off + i], Le(v', w)[i])
    ensures v == v'
  {
    hide XorByte, Le, FromLe, Pow256;
    forall i | 0 <= i < w ensures Le(v, w)[i] == Le(v', w)[i] {
      XorByteBack(h[off + i], Le(v, w)[i], Le(v', w)[i]);
    }
    assert Le(v, w) == Le(v', w);
    LeRoundTrip(v, w);
    LeRoundTrip(v', w);
  }

  lemma {:induction false} Powers()
    ensures Pow256(2) == 0x1_0000 && Pow256(4) == 0x1_0000_0000
  {
    assert Pow256(2) == 0x1_0000;
  }

  /** One hash with other identifiers is another leaf. */
  lemma {:induction false} IdentifiersApart(sha: Sha, data: seq<byte>, svid: nat, msid: nat, tnum: nat,
                                            svid': nat, msid': nat, tnum': nat)
    requires svid < 0x1_0000 && msid < 0x1_0000_0000 && tnum < 0x1_0000
    requires svid' < 0x1_0000 && msid' < 0x1_0000_0000 && tnum' < 0x1_0000
    requires TxLeaf(sha, data, svid, msid, tnum) == TxLeaf(sha, data, svid', msid', tnum')
    ensures svid == svid' && msid == msid' && tnum == tnum'
  {
    Powers();
    hide XorByte, Le, Pow256;
    var h, l, l' := sha(data), TxLeaf(sha, data, svid, msid, tnum), TxLeaf(sha, data, svid', msid', tnum');
    forall i | 0 <= i < 2 ensures XorByte(h[0 + i], Le(svid, 2)[i]) == XorByte(h[0 + i], Le(svid', 2)[i]) {
      assert l[i] == l'[i];
    }
    forall i | 0 <= i < 4 ensures XorByte(h[4 + i], Le(msid, 4)[i]) == XorByte(h[4 + i], Le(msid', 4)[i]) {
      assert l[4 + i] == l'[4 + i];
    }
    forall i | 0 <= i < 2 ensures XorByte(h[8 + i], Le(tnum, 2)[i]) == XorByte(h[8 + i], Le(tnum', 2)[i]) {
      assert l[8 + i] == l'[8 + i];
    }
    FieldApart(h, 0, svid, svid', 2);
    FieldApart(h, 4, msid, msid', 4);
    FieldApart(h, 8, tnum, tnum', 2);
  }

  /** Two strings whose hashes differ at most in the bytes that identifiers are mixed into. */
  ghost predicate Near(sha: Sha, u: seq<byte>, v: seq<byte>) {
    u != v && forall i :: 0 <= i < 32 && (i == 2 || i == 3 || i >= 10) ==> sha(u)[i] == sha(v)[i]
  }

  lemma CollideIsNear(sha: Sha, u: seq<byte>, v: seq<byte>)
    requires Collide(sha, u, v)
    ensures Near(sha, u, v)
  {
  }

  lemma {:induction false} LeafOutside(sha: Sha, data: seq<byte>, svid: nat, msid: nat, tnum: nat, i: nat)
    requires i < 32 && (i == 2 || i == 3 || i >= 10)
    ensures TxLeaf(sha, data, svid, msid, tnum)[i] == sha(data)[i]
  {
    hide XorByte, Le;
  }

  /** A leaf that is the plain hash of some bytes. */
  lemma {:induction false} PlainIsNear(sha: Sha, data: seq<byte>, svid: nat, msid: nat, tnum: nat, bytes: seq<byte>)
    requires 0 < svid < 0x1_0000 && TxLeaf(sha, data, svid, msid, tnum) == sha(bytes)
    ensures Near(sha, data, bytes)
  {
    hide TxLeaf;
    LeafIsMixed(sha, data, svid, msid, tnum);
    forall i | 0 <= i < 32 && (i == 2 || i == 3 || i >= 10) ensures sha(data)[i] == sha(bytes)[i] {
      LeafOutside(sha, data, svid, msid, tnum, i);
    }
  }

  /** The same leaf of different bytes. */
  lemma {:induction false} LeavesNear(sha: Sha, data: seq<byte>, svid: nat, msid: nat, tnum: nat,
                                      data': seq<byte>, svid': nat, msid': nat, tnum': nat)
    requires data != data' && TxLeaf(sha, data, svid, msid, tnum) == TxLeaf(sha, data', svid', msid', tnum')
    ensures Near(sha, data, data')
  {
    hide TxLeaf;
    forall i | 0 <= i < 32 && (i == 2 || i == 3 || i >= 10) ensures sha(data)[i] == sha(data')[i] {
      LeafOutside(sha, data, svid, msid, tnum, i);
      LeafOutside(sha, data', svid', msid', tnum', i);
    }
  }

  // ---------- two answers ----------

  /** Different hashes that run to the same end along the same siblings collide on the way. */
  lemma {:induction false} FoldCollides(sha: Sha, a: Digest, b: Digest, xs: seq<Digest>)
    returns (u: seq<byte>, v: seq<byte>)
    requires a != b && Fold(Joiner(sha), a, xs) == Fold(Joiner(sha), b, xs)
    ensures Collide(sha, u, v)
    decreases |xs|
  {
    hide Pair, Joiner;
    assert xs != [];
    if Joiner(sha)(a, xs[0]) == Joiner(sha)(b, xs[0]) {
      JoinsMeet(sha, a, xs[0], b, xs[0]);
      u, v := Pair(a, xs[0]), Pair(b, xs[0]);
    } else {
      u, v := FoldCollides(sha, Joiner(sha)(a, xs[0]), Joiner(sha)(b, xs[0]), xs[1..]);
    }
  }

  /**
   * Two answers confirmed for one transaction with different bytes: two strings collide, or the answers start at
   * different leaves whose ways meet. Along the same siblings only a collision is left.
   */
  lemma {:induction false} AnswersCollide(sha: Sha, svid: nat, msid: nat, tnum: nat, answer: Answer,
                                          nowhash: Option<Digest>, data: seq<byte>, hashes: seq<Digest>,
                                          data': seq<byte>, hashes': seq<Digest>)
    returns (u: seq<byte>, v: seq<byte>)
    requires hashes != [] && Confirmed(sha, svid, msid, tnum, answer, data, hashes, nowhash)
    requires hashes' != [] && Confirmed(sha, svid, msid, tnum, answer, data', hashes', nowhash)
    requires data != data'
    ensures Collide(sha, u, v) ||
      (hashes[0] != hashes'[0] && hashes[1..] != hashes'[1..]
       && Meet(Joiner(sha), hashes[0], hashes[1..], hashes'[0], hashes'[1..]))
  {
    ConfirmedIs(sha, svid, msid, tnum, answer, data, hashes, nowhash);
    ConfirmedIs(sha, svid, msid, tnum, answer, data', hashes', nowhash);
    hide TxLeaf, Joiner, Fold, Meet, Confirmed;
    if hashes[0] == hashes'[0] {
      LeafApart(sha, data, data', svid, msid, tnum);
      u, v := data, data';
    } else if hashes[1..] == hashes'[1..] {
      u, v := FoldCollides(sha, hashes[0], hashes'[0], hashes[1..]);
    } else {
      u, v := RunsMeet(sha, hashes[0], hashes[1..], hashes'[0], hashes'[1..]);
    }
  }

  /** Conversely an answer whose way meets that of a confirmed one is confirmed. */
  lemma {:induction false} MeetingConfirms(sha: Sha, svid: nat, msid: nat, tnum: nat, answer: Answer,
                                           nowhash: Option<Digest>, data: seq<byte>, hashes: seq<Digest>,
                                           data': seq<byte>, xs: seq<Digest>)
    requires hashes != [] && Confirmed(sha, svid, msid, tnum, answer, data, hashes, nowhash)
    requires Meet(Joiner(sha), hashes[0], hashes[1..], TxLeaf(sha, data', svid, msid, tnum), xs)
    ensures Confirmed(sha, svid, msid, tnum, answer, data', [TxLeaf(sha, data', svid, msid, tnum)] + xs, nowhash)
  {
    var leaf := TxLeaf(sha, data', svid, msid, tnum);
    JoinCommutes(sha);
    ConfirmedIs(sha, svid, msid, tnum, answer, data, hashes, nowhash);
    ConfirmedIs(sha, svid, msid, tnum, answer, data', [leaf] + xs, nowhash);
    assert ([leaf] + xs)[1..] == xs;
    hide TxLeaf, Joiner, Fold, Meet, Confirmed;
    MeetEndsAlike(Joiner(sha), hashes[0], hashes[1..], leaf, xs);
  }

  // ---------- published blocks ----------

  /** The proof of leaf `i` of message `k`, up to the block hash. */
  function FullProof(st: Stray, sha: Sha, m: Message, msgs: seq<Entry>, k: nat, minhash: Digest, i: nat): seq<Digest>
    requires DATA_OFFSET < |m.body| && Accepted(st, m.body) && i < |LeavesOf(st, sha, m.body, m.svid, m.msid)|
    requires k < |msgs|
  {
    Chain(Joiner(sha), LeavesOf(st, sha, m.body, m.svid, m.msid), i) + ChainTail(Joiner(sha), Sighs(msgs), k)
      + [minhash]
  }

  /** Every transaction of a block, of whatever count, is confirmed for its number modulo 2^16. */
  lemma {:induction false} TrueAnswer(st: Stray, block: Block, m: Message, msgs: seq<Entry>, k: nat, i: nat, path: nat)
    requires Sound(st, m) && k < |msgs| && msgs[k] == EntryOf(st, block.sha, m)
    requires block.Sealed() && block.msghash == MsgHash(block.sha, msgs) && path != 0
    requires 0 < i < |LeavesOf(st, block.sha, m.body, m.svid, m.msid)|
    ensures i <= |Transactions(st, m.body).value|
    ensures var hashes := FullProof(st, block.sha, m, msgs, k, block.minhash, i); var tnum := i % 0x1_0000;
      hashes != [] && Confirmed(block.sha, m.svid, m.msid, tnum, Answer(path, m.svid, m.msid, tnum),
                                Piece(st, m.body, i), hashes, Some(block.nowhash))
  {
    var sha, f, tnum := block.sha, Joiner(block.sha), i % 0x1_0000;
    var leaves := LeavesOf(st, sha, m.body, m.svid, m.msid);
    var hashes := FullProof(st, sha, m, msgs, k, block.minhash, i);
    JoinCommutes(sha);
    LeafIs(st, sha, m.body, m.svid, m.msid, i);
    assert Chain(f, leaves, i)[0] == leaves[i];
    assert Sighs(msgs)[k] == Mth(f, leaves);
    assert block.msghash == Mth(f, Sighs(msgs));
    assert block.nowhash == Join(sha, block.minhash, block.msghash);
    assert hashes[0] == leaves[i];
    hide *;
    ChainProves(f, leaves, i);
    ChainContinues(f, Chain(f, leaves, i), Sighs(msgs), k);
    var most := Chain(f, leaves, i) + ChainTail(f, Sighs(msgs), k);
    RunMore(sha, most, block.minhash);
    JoinSwap(sha, block.msghash, block.minhash);
    FullProofIs(st, sha, m, msgs, k, block.minhash, i);
    ConfirmedIs(sha, m.svid, m.msid, tnum, Answer(path, m.svid, m.msid, tnum), Piece(st, m.body, i), hashes,
                Some(block.nowhash));
  }

  lemma FullProofIs(st: Stray, sha: Sha, m: Message, msgs: seq<Entry>, k: nat, minhash: Digest, i: nat)
    requires DATA_OFFSET < |m.body| && Accepted(st, m.body) && i < |LeavesOf(st, sha, m.body, m.svid, m.msid)|
    requires k < |msgs|
    ensures FullProof(st, sha, m, msgs, k, minhash, i)
      == Chain(Joiner(sha), LeavesOf(st, sha, m.body, m.svid, m.msid), i) + ChainTail(Joiner(sha), Sighs(msgs), k)
        + [minhash]
  {
    hide Chain, ChainTail, Joiner, Sighs, Leaves, Accepted;
  }

  /** A transaction of five bytes. */
  const OTHER: seq<byte> := [NON, 5, 0, 0, 0]

  /** 65537 transactions: the first and the last have the same number modulo 2^16. */
  function Wrapping(): (r: seq<seq<byte>>)
    ensures |r| == 65537 && r[0] == EMPTY && r[65536] == OTHER
  {
    Fill(65536) + [OTHER]
  }

  function WrappingBody(): seq<byte> {
    [3] + Le(262227, 3) + seq(74, _ => 0) + Flat(Wrapping())
  }

  lemma OthersFramed(st: Stray)
    ensures Framed(st, EMPTY) && Framed(st, OTHER)
  {
  }

  lemma {:induction false} WrappingSize()
    ensures |Flat(Wrapping())| == 262149
  {
    hide Flat;
    FlatConcat(Fill(65536), [OTHER]);
    FlatOne(OTHER);
    FlatLength(Fill(65536), 4);
  }

  /** The message is accepted, and it splits into these transactions. */
  lemma {:induction false} WrappingSound(st: Stray)
    ensures Sound(st, Message(1, 1, WrappingBody())) && Transactions(st, WrappingBody()) == Split(Wrapping())
  {
    var body := WrappingBody();
    WrappingSize();
    OthersFramed(st);
    hide Frames, Flat, Framed, Le;
    assert body[DATA_OFFSET..] == Flat(Wrapping());
    assert body[1..4] == Le(262227, 3);
    SplitIff(st, body[DATA_OFFSET..], Wrapping());
  }

  /**
   * A published block in which two transactions of one message are both confirmed for one identifier, without any
   * collision: transactions are numbered modulo 2^16.
   */
  method SharedNumber(st: Stray, block: Block)
    returns (ghost data: seq<byte>, ghost hashes: seq<Digest>, ghost data': seq<byte>, ghost hashes': seq<Digest>)
    modifies block
    ensures block.Sealed() && block.Headed() && hashes != [] && hashes' != [] && data != data'
    ensures Confirmed(block.sha, 1, 1, 1, Answer(1, 1, 1, 1), data, hashes, Some(block.nowhash))
    ensures Confirmed(block.sha, 1, 1, 1, Answer(1, 1, 1, 1), data', hashes', Some(block.nowhash))
  {
    hide *;
    WrappingSound(st);
    var m := Message(1, 1, WrappingBody());
    var list, files, msgs := Publish(st, block, [m], []);
    PublishedIs(st, block.sha, m, msgs[0], files[0], 1);
    ghost var leaves := LeavesOf(st, block.sha, m.body, 1, 1);
    TrueAnswer(st, block, m, msgs, 0, 1, 1);
    TrueAnswer(st, block, m, msgs, 0, 65537, 1);
    WrappingPieces(st);
    data, data' := Piece(st, m.body, 1), Piece(st, m.body, 65537);
    hashes, hashes' := FullProof(st, block.sha, m, msgs, 0, block.minhash, 1),
      FullProof(st, block.sha, m, msgs, 0, block.minhash, 65537);
  }

  lemma PublishedIs(st: Stray, sha: Sha, m: Message, e: Entry, file: seq<byte>, mnum: nat)
    requires Published(st, sha, m, e, file, mnum)
    ensures Sound(st, m) && DATA_OFFSET < |m.body| && Accepted(st, m.body) && e == EntryOf(st, sha, m)
  {
    hide Encode, Root, Leaves, Accepted;
  }

  lemma {:induction false} WrappingPieces(st: Stray)
    requires Transactions(st, WrappingBody()) == Split(Wrapping())
    ensures DATA_OFFSET < |WrappingBody()| && Accepted(st, WrappingBody())
    ensures Piece(st, WrappingBody(), 1) == EMPTY && Piece(st, WrappingBody(), 65537) == OTHER && EMPTY != OTHER
  {
    WrappingSize();
    hide Frames, Flat, Le, Transactions;
  }

  // ---------- soundness ----------

  /** The bytes are transaction `i` of message `k`, and its number and message are the ones asked for. */
  ghost predicate Named(st: Stray, ms: seq<Message>, svid: nat, msid: nat, tnum: nat, data: seq<byte>, k: nat, i: nat) {
    && k < |ms| && DATA_OFFSET < |ms[k].body| && Accepted(st, ms[k].body)
    && ms[k].svid == svid && ms[k].msid == msid && 0 < i <= |Transactions(st, ms[k].body).value|
    && i % 0x1_0000 == tnum && data == Piece(st, ms[k].body, i)
  }

  /** A hash reached after at least one step is that of 64 bytes. */
  lemma {:induction false} ReachedByJoin(sha: Sha, a: Digest, xs: seq<Digest>) returns (bytes: seq<byte>)
    requires xs != []
    ensures Fold(Joiner(sha), a, xs) == sha(bytes) && |bytes| == 64
  {
    hide Fold, Joiner, Pair;
    var f, c, x := Joiner(sha), Fold(Joiner(sha), a, xs[..|xs| - 1]), xs[|xs| - 1];
    FoldLast(f, a, xs);
    PairIs(sha, c, x);
    bytes := Pair(c, x);
  }

  /** A run through a leaf of a message: near hashes, or the transaction itself. */
  lemma {:induction false} LeafRun(st: Stray, sha: Sha, ms: seq<Message>, k: nat, i: nat, svid: nat, msid: nat,
                                   tnum: nat, data: seq<byte>, xs: seq<Digest>)
    returns (u: seq<byte>, v: seq<byte>)
    requires k < |ms| && Sound(st, ms[k]) && 0 < svid < 0x1_0000 && msid < 0x1_0000_0000 && tnum < 0x1_0000
    requires i < |LeavesOf(st, sha, ms[k].body, ms[k].svid, ms[k].msid)|
    requires Fold(Joiner(sha), TxLeaf(sha, data, svid, msid, tnum), xs)
      == LeavesOf(st, sha, ms[k].body, ms[k].svid, ms[k].msid)[i]
    ensures Near(sha, u, v) || Named(st, ms, svid, msid, tnum, data, k, i)
  {
    var m := ms[k];
    LeafIs(st, sha, m.body, m.svid, m.msid, i);
    HeaderSize(st, m);
    var piece := Piece(st, m.body, i);
    hide Fold, Joiner, TxLeaf, Leaves, Accepted, Near, Transactions, Piece;
    FoldNone(Joiner(sha), TxLeaf(sha, data, svid, msid, tnum));
    u, v := data, piece;
    if xs != [] {
      var bytes := ReachedByJoin(sha, TxLeaf(sha, data, svid, msid, tnum), xs);
      u, v := piece, bytes;
      if i == 0 {
        CollideIsNear(sha, piece, bytes);
      } else {
        PlainIsNear(sha, piece, m.svid, m.msid, i % 0x1_0000, bytes);
      }
    } else if i == 0 {
      PlainIsNear(sha, data, svid, msid, tnum, piece);
    } else if data != piece {
      LeavesNear(sha, data, svid, msid, tnum, piece, m.svid, m.msid, i % 0x1_0000);
    } else {
      IdentifiersApart(sha, data, svid, msid, tnum, m.svid, m.msid, i % 0x1_0000);
    }
  }

  lemma HeaderSize(st: Stray, m: Message)
    requires Sound(st, m)
    ensures |Piece(st, m.body, 0)| == 10
  {
    hide Accepted, Le;
  }

  /** The bytes are some transaction of the block with the identifier asked for. */
  ghost predicate Contained(st: Stray, ms: seq<Message>, svid: nat, msid: nat, tnum: nat, data: seq<byte>) {
    exists k, i :: Named(st, ms, svid, msid, tnum, data, k, i)
  }

  /** A run that ends in the root of a message. */
  lemma {:induction false} MessageRun(st: Stray, sha: Sha, ms: seq<Message>, k: nat, svid: nat, msid: nat,
                                      tnum: nat, data: seq<byte>, xs: seq<Digest>)
    returns (u: seq<byte>, v: seq<byte>)
    requires k < |ms| && Sound(st, ms[k]) && 0 < svid < 0x1_0000 && msid < 0x1_0000_0000 && tnum < 0x1_0000
    requires Fold(Joiner(sha), TxLeaf(sha, data, svid, msid, tnum), xs)
      == Root(st, sha, ms[k].body, ms[k].svid, ms[k].msid)
    ensures Near(sha, u, v) || Contained(st, ms, svid, msid, tnum, data)
  {
    var m, f, a := ms[k], Joiner(sha), TxLeaf(sha, data, svid, msid, tnum);
    var leaves := LeavesOf(st, sha, m.body, m.svid, m.msid);
    RootIs(st, sha, m);
    hide Fold, Joiner, TxLeaf, Leaves, Accepted, Near, Named, Sound, Mth, Passes, Root, Collide;
    var l := Land(sha, leaves, a, xs);
    LandsIs(sha, leaves, a, xs, l);
    match l
    case Collision(p, q) =>
      u, v := p, q;
      CollideIsNear(sha, u, v);
    case AtNode(bytes) =>
      u, v := data, bytes;
      PlainIsNear(sha, data, svid, msid, tnum, bytes);
    case AtLeaf(i) =>
      var n := PassesAt(f, a, xs, leaves[i]);
      u, v := LeafRun(st, sha, ms, k, i, svid, msid, tnum, data, xs[..n]);
  }

  lemma RootIs(st: Stray, sha: Sha, m: Message)
    requires Sound(st, m)
    ensures DATA_OFFSET < |m.body| && Accepted(st, m.body) && |LeavesOf(st, sha, m.body, m.svid, m.msid)| > 0
    ensures Root(st, sha, m.body, m.svid, m.msid) == Mth(Joiner(sha), LeavesOf(st, sha, m.body, m.svid, m.msid))
  {
    hide Accepted, Mth, Joiner;
  }

  lemma LandsIs(sha: Sha, s: seq<Digest>, a: Digest, xs: seq<Digest>, l: Landing)
    requires Lands(sha, s, a, xs, l)
    ensures match l
      case AtLeaf(i) => i < |s| && Passes(Joiner(sha), a, xs, s[i])
      case AtNode(bytes) => a == sha(bytes) && |bytes| == 64
      case Collision(u, v) => Collide(sha, u, v)
  {
    hide Passes, Joiner, Collide;
  }

  lemma PassesAt<H>(f: (H, H) -> H, a: H, xs: seq<H>, h: H) returns (n: nat)
    requires Passes(f, a, xs, h)
    ensures n <= |xs| && Fold(f, a, xs[..n]) == h
  {
    hide Fold;
    n :| 0 <= n <= |xs| && Fold(f, a, xs[..n]) == h;
  }

  /** A run that ends in the root of the messages of a block. */
  lemma {:induction false} ListRun(st: Stray, sha: Sha, ms: seq<Message>, msgs: seq<Entry>, svid: nat, msid: nat,
                                   tnum: nat, data: seq<byte>, xs: seq<Digest>)
    returns (u: seq<byte>, v: seq<byte>)
    requires |ms| == |msgs| > 0 && 0 < svid < 0x1_0000 && msid < 0x1_0000_0000 && tnum < 0x1_0000
    requires forall k :: 0 <= k < |ms| ==> Sound(st, ms[k]) && msgs[k] == EntryOf(st, sha, ms[k])
    requires Fold(Joiner(sha), TxLeaf(sha, data, svid, msid, tnum), xs) == MsgHash(sha, msgs)
    ensures Near(sha, u, v) || Contained(st, ms, svid, msid, tnum, data)
  {
    var f, a, leaves := Joiner(sha), TxLeaf(sha, data, svid, msid, tnum), Sighs(msgs);
    assert MsgHash(sha, msgs) == Mth(f, leaves);
    hide Fold, Joiner, TxLeaf, Near, Contained, Sound, Mth, Passes, Root, Collide;
    var l := Land(sha, leaves, a, xs);
    LandsIs(sha, leaves, a, xs, l);
    match l
    case Collision(p, q) =>
      u, v := p, q;
      CollideIsNear(sha, u, v);
    case AtNode(bytes) =>
      u, v := data, bytes;
      PlainIsNear(sha, data, svid, msid, tnum, bytes);
    case AtLeaf(k) =>
      RootIs(st, sha, ms[k]);
      var n := PassesAt(f, a, xs, leaves[k]);
      u, v := MessageRun(st, sha, ms, k, svid, msid, tnum, data, xs[..n]);
  }

  /** A run that ends in the hash of counters, nodes, keys and previous block. */
  lemma {:induction false} HeaderRun(sha: Sha, counters: seq<byte>, ys: seq<Digest>, svid: nat, msid: nat, tnum: nat,
                                     data: seq<byte>, xs: seq<Digest>)
    returns (u: seq<byte>, v: seq<byte>)
    requires 0 < svid < 0x1_0000 && |counters| == 16
    requires Fold(Joiner(sha), TxLeaf(sha, data, svid, msid, tnum), xs)
      == Fold(Joiner(sha), sha(counters), ys)
    ensures Near(sha, u, v)
      || exists h :: h in ys && Passes(Joiner(sha), TxLeaf(sha, data, svid, msid, tnum), xs, h)
  {
    var f, a, b := Joiner(sha), TxLeaf(sha, data, svid, msid, tnum), sha(counters);
    hide Fold, Joiner, TxLeaf, Near, Passes, Collide, Across;
    u, v := RunsMeet(sha, a, xs, b, ys);
    if Collide(sha, u, v) {
      CollideIsNear(sha, u, v);
    } else if Through(f, a, xs, b, ys) {
      var p := xs[..|xs| - |ys|];
      FoldNone(f, a);
      if p == [] {
        u, v := data, counters;
        PlainIsNear(sha, data, svid, msid, tnum, counters);
      } else {
        var bytes := ReachedByJoin(sha, a, p);
        u, v := counters, bytes;
        CollidesBy(sha, counters, bytes);
      }
    } else if Through(f, b, ys, a, xs) {
      var p := ys[..|ys| - |xs|];
      FoldNone(f, b);
      if p == [] {
        u, v := data, counters;
        PlainIsNear(sha, data, svid, msid, tnum, counters);
      } else {
        var bytes := ReachedByJoin(sha, b, p);
        u, v := data, bytes;
        PlainIsNear(sha, data, svid, msid, tnum, bytes);
      }
    } else {
      var j: nat :| Across(f, a, xs, b, ys, j);
      var h := AcrossPasses(f, a, xs, b, ys, j);
    }
  }

  lemma CollidesBy(sha: Sha, u: seq<byte>, v: seq<byte>)
    requires sha(u) == sha(v) && |u| != |v|
    ensures Near(sha, u, v)
  {
  }

  lemma {:induction false} AcrossPasses<H>(f: (H, H) -> H, a: H, xs: seq<H>, b: H, ys: seq<H>, j: nat) returns (h: H)
    requires Across(f, a, xs, b, ys, j)
    ensures h in ys && Passes(f, a, xs, h)
  {
    hide Fold;
    var m, n := |xs| - 1 - j, |ys| - 1 - j;
    h := ys[n];
    assert Fold(f, a, xs[..m]) == h;
  }

  /** A run that ends in the hash of a block whose header ends in the hashes `ys`. */
  lemma {:induction false} BlockRun(st: Stray, sha: Sha, ms: seq<Message>, msgs: seq<Entry>, counters: seq<byte>,
                                    ys: seq<Digest>, svid: nat, msid: nat, tnum: nat, data: seq<byte>, xs: seq<Digest>)
    returns (u: seq<byte>, v: seq<byte>)
    requires |ms| == |msgs| && 0 < svid < 0x1_0000 && msid < 0x1_0000_0000 && tnum < 0x1_0000 && |counters| == 16
    requires forall k :: 0 <= k < |ms| ==> Sound(st, ms[k]) && msgs[k] == EntryOf(st, sha, ms[k])
    requires Fold(Joiner(sha), TxLeaf(sha, data, svid, msid, tnum), xs)
      == Joiner(sha)(Fold(Joiner(sha), sha(counters), ys), MsgHash(sha, msgs))
    ensures Near(sha, u, v) || Contained(st, ms, svid, msid, tnum, data)
      || PassesOne(sha, TxLeaf(sha, data, svid, msid, tnum), xs, Outer(sha, ys, msgs))
  {
    hide *;
    var f, a := Joiner(sha), TxLeaf(sha, data, svid, msid, tnum);
    var left, right := Fold(f, sha(counters), ys), MsgHash(sha, msgs);
    OuterHas(sha, ys, msgs);
    if xs == [] {
      FoldNone(f, a);
      PairIs(sha, left, right);
      u, v := data, Pair(left, right);
      PlainIsNear(sha, data, svid, msid, tnum, v);
      return;
    }
    var p, x := xs[..|xs| - 1], xs[|xs| - 1];
    FoldLast(f, a, xs);
    var c := Fold(f, a, p);
    JoinsMeet(sha, c, x, left, right);
    u, v := Pair(c, x), Pair(left, right);
    if Collide(sha, u, v) {
      CollideIsNear(sha, u, v);
    } else if c == left {
      u, v := HeaderRun(sha, counters, ys, svid, msid, tnum, data, p);
      if h :| h in ys && Passes(f, a, p, h) {
        PassesOn(f, a, xs, h);
        PassesOneBy(sha, a, xs, Outer(sha, ys, msgs), h);
      }
    } else if msgs == [] {
      PassesEnd(f, a, p, right);
      PassesOn(f, a, xs, right);
      PassesOneBy(sha, a, xs, Outer(sha, ys, msgs), right);
    } else {
      u, v := ListRun(st, sha, ms, msgs, svid, msid, tnum, data, p);
    }
  }

  /** The hashes that stand for what is not in the messages of a block. */
  function Outer(sha: Sha, ys: seq<Digest>, msgs: seq<Entry>): seq<Digest> {
    ys + if msgs == [] then [MsgHash(sha, msgs)] else []
  }

  lemma OuterHas(sha: Sha, ys: seq<Digest>, msgs: seq<Entry>)
    ensures forall h :: h in ys ==> h in Outer(sha, ys, msgs)
    ensures msgs == [] ==> MsgHash(sha, msgs) in Outer(sha, ys, msgs)
  {
  }

  ghost predicate PassesOne(sha: Sha, a: Digest, xs: seq<Digest>, hs: seq<Digest>) {
    exists h :: h in hs && Passes(Joiner(sha), a, xs, h)
  }

  lemma PassesOneBy(sha: Sha, a: Digest, xs: seq<Digest>, hs: seq<Digest>, h: Digest)
    requires h in hs && Passes(Joiner(sha), a, xs, h)
    ensures PassesOne(sha, a, xs, hs)
  {
  }

  /**
   * An answer confirmed against a published block carries a transaction of that block with the identifier asked for,
   * unless two strings have hashes that differ at most in the bytes identifiers are mixed into, or the proof goes
   * through the hash of the nodes, of the keys or of the previous block, or through that of no messages.
   */
  lemma {:induction false} ConfirmedIsContained(st: Stray, block: Block, ms: seq<Message>, msgs: seq<Entry>, svid: nat,
                                                msid: nat, tnum: nat, answer: Answer, data: seq<byte>,
                                                hashes: seq<Digest>)
    returns (u: seq<byte>, v: seq<byte>)
    requires |ms| == |msgs| && 0 < svid < 0x1_0000 && msid < 0x1_0000_0000 && tnum < 0x1_0000
    requires forall k :: 0 <= k < |ms| ==> Sound(st, ms[k]) && msgs[k] == EntryOf(st, block.sha, ms[k])
    requires block.Sealed() && block.Headed() && block.msghash == MsgHash(block.sha, msgs)
    requires hashes != []
    requires Confirmed(block.sha, svid, msid, tnum, answer, data, hashes, Some(block.nowhash))
    ensures Near(block.sha, u, v) || Contained(st, ms, svid, msid, tnum, data)
      || PassesOne(block.sha, hashes[0], hashes[1..],
                   Outer(block.sha, [block.nodhash, block.viphash, block.oldhash], msgs))
  {
    hide *;
    var sha := block.sha;
    ConfirmedIs(sha, svid, msid, tnum, answer, data, hashes, Some(block.nowhash));
    RunIs(Joiner(sha), hashes);
    HeadIs(block);
    SealIs(block);
    u, v := BlockRun(st, sha, ms, msgs, Counters(block.now, block.msg, block.nod, block.div),
                     [block.nodhash, block.viphash, block.oldhash], svid, msid, tnum, data, hashes[1..]);
  }

  lemma RunIs<H>(f: (H, H) -> H, hashes: seq<H>)
    requires hashes != []
    ensures Run(f, hashes) == Fold(f, hashes[0], hashes[1..])
  {
    hide Fold;
  }

  lemma HeadIs(block: Block)
    requires block.Headed()
    ensures block.minhash == Fold(Joiner(block.sha), block.sha(Counters(block.now, block.msg, block.nod, block.div)),
                                  [block.nodhash, block.viphash, block.oldhash])
  {
    var f, h := Joiner(block.sha), block.sha(Counters(block.now, block.msg, block.nod, block.div));
    var ys := [block.nodhash, block.viphash, block.oldhash];
    assert ys[..2][..1] == [block.nodhash] && ys[..2][..1][..0] == [];
    FoldLast(f, h, ys);
    FoldLast(f, h, ys[..2]);
    FoldLast(f, h, ys[..2][..1]);
    FoldNone(f, h);
  }

  lemma SealIs(block: Block)
    requires block.Sealed()
    ensures block.nowhash == Joiner(block.sha)(block.minhash, block.msghash)
  {
    hide Less;
  }
}
