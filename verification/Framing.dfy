/** Transaction framing: `usertxs::get_size` and the loops that walk a message with it. */
module Framing {
  import opened Options
  import opened Digests
  import opened Bytes

  const NON := 0
  const CON := 1
  const UOK := 2
  const BRO := 3
  const MPT := 5
  const USR := 6
  const BKY := 10
  const SAV := 15
  const TXSTYPE_MAX := 28

  /** Fixed part of each transaction type, without signature. */
  const TXSLEN: seq<nat> := [
    4, 23, 53, 17, 61, 17, 17, 15, 21, 47, 49, 23, 21, 23, 21, 15,
    17, 17, 15, 19, 21, 43, 15, 15, 17, 15, 21, 61
  ]

  const USER_SIZE := 128

  /** A byte of the buffer; a buffer that ends early reads as zeros. */
  function At(s: seq<byte>, i: nat): byte {
    if i < |s| then s[i] else 0
  }

  /**
   * What the length table reads as in front of its start, for a type byte from 0x80 on: that byte is negative
   * as a `char`. `None` stands for the value that means refusal.
   */
  type Stray = nat -> Option<nat>

  /** `get_size`: the network size of the transaction at the head of the buffer. */
  function GetSize(st: Stray, s: seq<byte>): (r: Option<nat>)
    ensures r.None? <==> if At(s, 0) < 0x80 then At(s, 0) >= TXSTYPE_MAX else st(At(s, 0)).None?
    ensures r.Some? && At(s, 0) < 0x80 ==> r.value >= 4
  {
    var t := At(s, 0);
    if t >= 0x80 then st(t)
    else if t >= TXSTYPE_MAX then None
    else if t == CON then Some(TXSLEN[CON])
    else if t == UOK then Some(TXSLEN[UOK])
    else if t == BKY then Some(TXSLEN[BKY] + 64 + 32)
    else if t == USR then Some(TXSLEN[USR] + 64 + 4 + 32)
    else if t == BRO then Some(TXSLEN[BRO] + 64 + (At(s, 15) + 256 * At(s, 16)))
    else if t == MPT then Some(TXSLEN[MPT] + 64 + (At(s, 15) + 256 * At(s, 16)) * 14)
    else if t == NON then
      var len := At(s, 1) + 256 * At(s, 2) + 0x1_0000 * At(s, 3);
      Some(if len < 4 then 4 else len)
    else if t == SAV then Some(TXSLEN[SAV] + 64 + USER_SIZE)
    else Some(TXSLEN[t] + 64)
  }

  /** A transaction as it travels: exactly as many bytes as its head announces. */
  predicate Framed(st: Stray, tx: seq<byte>) {
    GetSize(st, tx) == Some(|tx|)
  }

  /** The verdict of a head that announces no more than the buffer holds does not depend on what follows. */
  lemma SizeLocal(st: Stray, tx: seq<byte>, rest: seq<byte>)
    requires tx != [] && GetSize(st, tx).Some? && GetSize(st, tx).value <= |tx|
    ensures GetSize(st, tx + rest) == GetSize(st, tx)
  {
  }

  /** A head cut off by the end of the buffer announces more than is left, whatever follows. */
  lemma CutSize(st: Stray, s: seq<byte>, junk: seq<byte>)
    requires s != [] && GetSize(st, s).Some? && GetSize(st, s).value > |s|
    ensures GetSize(st, s + junk).Some? && GetSize(st, s + junk).value > |s|
  {
  }

  /** What lies behind the buffer is read for the size of a cut head, but decides nothing. */
  lemma {:induction false} BehindDecidesNothing(st: Stray, s: seq<byte>, behind: seq<byte>)
    requires s != []
    ensures var l, r := GetSize(st, s), GetSize(st, s + behind);
      && (l.None? <==> r.None?)
      && (l.Some? ==> if l.value <= |s| then r == l else r.value > |s|)
  {
    assert (s + behind)[0] == s[0];
    if GetSize(st, s).Some? {
      if GetSize(st, s).value <= |s| {
        SizeLocal(st, s, behind);
      } else {
        CutSize(st, s, behind);
      }
    }
    hide *;
  }

  /** How a walk over a buffer ends: it may also never end, at a head that announces no bytes. */
  datatype Split = Endless | Refused | Split(value: seq<seq<byte>>)

  function Prepended(txs: seq<seq<byte>>, r: Split): Split {
    if r.Split? then Split(txs + r.value) else r
  }

  /** Cuts a buffer into transactions; refuses an unknown type and a cut last transaction. */
  function Frames(st: Stray, s: seq<byte>): Split
    decreases |s|
  {
    if s == [] then Split([])
    else
      match GetSize(st, s)
      case None => Refused
      case Some(l) =>
        if l == 0 then Endless
        else if l > |s| then Refused
        else Prepended([s[..l]], Frames(st, s[l..]))
  }

  ghost predicate AllFramed(st: Stray, txs: seq<seq<byte>>) {
    forall i :: 0 <= i < |txs| ==> Framed(st, txs[i])
  }

  lemma FramedSize(st: Stray, tx: seq<byte>)
    requires Framed(st, tx)
    ensures tx != [] && (tx[0] < 0x80 ==> |tx| >= 4)
  {
  }

  /** A framed transaction in front is cut off first. */
  lemma {:induction false} SplitHead(st: Stray, tx: seq<byte>, rest: seq<byte>)
    requires Framed(st, tx)
    ensures Frames(st, tx + rest) == Prepended([tx], Frames(st, rest))
  {
    hide GetSize, At;
    FramedSize(st, tx);
    SizeLocal(st, tx, rest);
    assert (tx + rest)[..|tx|] == tx && (tx + rest)[|tx|..] == rest;
  }

  lemma {:induction false} SplitAfter(st: Stray, txs: seq<seq<byte>>, rest: seq<byte>)
    requires AllFramed(st, txs)
    ensures Frames(st, Flat(txs) + rest) == Prepended(txs, Frames(st, rest))
  {
    hide GetSize, Framed, Frames;
    if txs == [] {
      assert Flat(txs) + rest == rest;
      assert Frames(st, rest).Split? ==> txs + Frames(st, rest).value == Frames(st, rest).value;
    } else {
      assert Flat(txs) + rest == txs[0] + (Flat(txs[1..]) + rest);
      SplitHead(st, txs[0], Flat(txs[1..]) + rest);
      SplitAfter(st, txs[1..], rest);
      assert Frames(st, rest).Split?
        ==> txs + Frames(st, rest).value == [txs[0]] + (txs[1..] + Frames(st, rest).value);
    }
  }

  lemma {:induction false} SplitEmpty(st: Stray)
    ensures Frames(st, []) == Split([])
  {
  }

  lemma {:induction false} SplitSound(st: Stray, s: seq<byte>)
    requires Frames(st, s).Split?
    ensures Flat(Frames(st, s).value) == s && AllFramed(st, Frames(st, s).value)
    decreases |s|
  {
    hide *;
    if s == [] {
      SplitEmpty(st);
      FlatOne([]);
      NoneFramed(st);
    } else {
      FramesStep(st, s);
      var l := GetSize(st, s).value;
      SplitSound(st, s[l..]);
      var rest := Frames(st, s[l..]).value;
      CutLocal(st, s, l);
      FramedFirst(st, s[..l], rest);
      FlatConcat([s[..l]], rest);
      FlatOne(s[..l]);
      assert s == s[..l] + s[l..];
    }
  }

  lemma {:induction false} FramesStep(st: Stray, s: seq<byte>)
    requires s != [] && Frames(st, s).Split?
    ensures GetSize(st, s).Some? && 0 < GetSize(st, s).value <= |s|
    ensures var l := GetSize(st, s).value; var rest := Frames(st, s[l..]);
      rest.Split? && Frames(st, s).value == [s[..l]] + rest.value
  {
    hide GetSize;
  }

  lemma NoneFramed(st: Stray)
    ensures AllFramed(st, [])
  {
  }

  lemma FramedFirst(st: Stray, tx: seq<byte>, rest: seq<seq<byte>>)
    requires Framed(st, tx) && AllFramed(st, rest)
    ensures AllFramed(st, [tx] + rest)
  {
    hide Framed;
  }

  lemma {:induction false} CutLocal(st: Stray, s: seq<byte>, l: nat)
    requires 0 < l <= |s| && GetSize(st, s) == Some(l)
    ensures Framed(st, s[..l])
  {
  }

  /** Framing is unambiguous: a buffer splits into a list exactly when it is that list, all framed. */
  lemma SplitIff(st: Stray, s: seq<byte>, txs: seq<seq<byte>>)
    ensures Frames(st, s) == Split(txs) <==> Flat(txs) == s && AllFramed(st, txs)
  {
    hide *;
    PrependedNone(txs);
    if Frames(st, s) == Split(txs) {
      SplitSound(st, s);
    }
    if Flat(txs) == s && AllFramed(st, txs) {
      SplitAfter(st, txs, []);
      SplitEmpty(st);
      assert Flat(txs) + [] == s;
    }
  }

  lemma PrependedNone(txs: seq<seq<byte>>)
    ensures Prepended(txs, Split([])) == Split(txs)
  {
    assert txs + [] == txs;
  }

  /** The walk over the buffer meets no type byte from 0x80 on. */
  predicate Plain(s: seq<byte>)
    decreases |s|
  {
    s == [] || (s[0] < 0x80 &&
      match GetSize(Nothing, s)
      case None => true
      case Some(l) => l > |s| || Plain(s[l..]))
  }

  function Nothing(t: nat): Option<nat> {
    None
  }

  function Standing(t: nat): Option<nat> {
    Some(0)
  }

  /** Exactly such a walk does not depend on the stray lengths, and it always ends. */
  lemma {:induction false} PlainIff(st: Stray, s: seq<byte>)
    ensures Plain(s) ==> Frames(st, s) == Frames(Nothing, s) != Endless
    ensures !Plain(s) ==> Frames(Nothing, s) == Refused && Frames(Standing, s) == Endless
    decreases |s|
  {
    if s != [] && s[0] < 0x80 {
      PlainSize(st, s);
      PlainSize(Standing, s);
      hide GetSize;
      var l := GetSize(Nothing, s);
      if l.Some? && l.value <= |s| {
        PlainIff(st, s[l.value..]);
      }
    }
  }

  lemma PlainSize(st: Stray, s: seq<byte>)
    requires s != [] && s[0] < 0x80
    ensures GetSize(st, s) == GetSize(Nothing, s)
    ensures GetSize(st, s).Some? ==> GetSize(st, s).value > 0
  {
  }

  /** `size` as `usertxs::parse` leaves it, `None` when it refuses the type. */
  function ParsedSize(s: seq<byte>): Option<nat> {
    var t := At(s, 0);
    var bbank := At(s, 15) + 256 * At(s, 16);
    if t >= TXSTYPE_MAX then None
    else if t == NON then
      var size := At(s, 1) + 256 * At(s, 2) + 0x1_0000 * At(s, 3);
      Some(if size < 4 then 4 else size)
    else if t == SAV then Some(TXSLEN[t] + 64 + USER_SIZE)
    else
      var size := TXSLEN[t] + 64;
      if t in {19, 20, 21, 22, 23, 24, 25, 26, 11, 13, 12, 14} then Some(size)
      else if t == CON then Some(TXSLEN[CON])
      else if t in {18, 16, 17, 8} then Some(size)
      else if t == UOK then Some(TXSLEN[UOK])
      else if t == BKY then Some(size + 32)
      else if t == USR then Some(size + 4 + 32)
      else if t == BRO then Some(size + bbank)
      else if t == MPT then Some(size + bbank * 14)
      else Some(size)
  }

  /**
   * `parse` and `get_size` agree exactly on type bytes below 0x80, and where the stray length happens to be
   * the refusal: `parse` reads the type as unsigned and refuses the others.
   */
  lemma ParseAgreesIff(st: Stray, s: seq<byte>)
    ensures ParsedSize(s) == GetSize(st, s) <==> At(s, 0) < 0x80 || st(At(s, 0)).None?
  {
  }

  /** A buffer that begins with 0x80 and has the stray length is one transaction to the walk and none to `parse`. */
  lemma {:induction false} StrayType(st: Stray, s: seq<byte>)
    requires s != [] && s[0] == 0x80 && st(0x80) == Some(|s|)
    ensures Frames(st, s) == Split([s]) && ParsedSize(s) == None
  {
    FlatOne(s);
    SplitIff(st, s, [s]);
  }

  /** A stray length of zero keeps the walk where it is. */
  lemma StrayStops(st: Stray, s: seq<byte>)
    requires s != [] && s[0] == 0x80 && st(0x80) == Some(0)
    ensures Frames(st, s) == Endless
  {
  }
}
