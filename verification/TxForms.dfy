/** The fields of a transaction, as `usertxs` writes them and as `usertxs::parse` reads them back. */
module TxForms {
  import opened Options
  import opened Digests
  import opened Bytes
  import opened Framing
  import Arith

  const PUT := 4
  const BNK := 7
  const GET := 8
  const KEY := 9
  const SUS := 11
  const SBS := 12
  const UUS := 13
  const UBS := 14
  const INF := 16
  const LOG := 17
  const BLG := 18
  const BLK := 19
  const TXS := 20
  const VIP := 21
  const SIG := 22
  const NDS := 23
  const NOD := 24
  const MGS := 25
  const MSG := 26

  datatype Tx = Tx(ttype: nat, abank: nat, auser: nat, amsid: nat, ttime: nat, bbank: nat, buser: nat, tmass: nat,
                   tinfo: seq<byte>, text: seq<byte>)

  /** How many bytes of text the constructor copies. */
  function TextSize(tx: Tx): nat {
    if tx.ttype == CON then 16
    else if tx.ttype in {UOK, KEY, BKY} then 32
    else if tx.ttype == BRO then tx.bbank
    else if tx.ttype == MPT then 14 * tx.bbank
    else 0
  }

  /** A transaction of any type but the placeholder, with fields of their widths. */
  ghost predicate Fits(tx: Tx) {
    && NON < tx.ttype < TXSTYPE_MAX && tx.abank < 0x1_0000 && tx.auser < 0x1_0000_0000 && tx.amsid < 0x1_0000_0000
    && tx.ttime < 0x1_0000_0000 && tx.bbank < 0x1_0000 && tx.buser < 0x1_0000_0000
    && tx.tmass < 0x1_0000_0000_0000_0000 && |tx.tinfo| == 32 && |tx.text| == TextSize(tx)
  }

  // ---------- writing ----------

  /** One `memcpy` into the buffer. */
  datatype Copy = Copy(at: nat, bytes: seq<byte>)

  function Head(tx: Tx): seq<Copy> {
    [Copy(1, Le(tx.abank, 2)), Copy(1 + 2, Le(tx.auser, 4))]
  }

  /** Questions of a client to its node. */
  predicate Asks(t: nat) {
    INF <= t <= MSG
  }

  function AskedCopies(tx: Tx): seq<Copy> {
    var t, asked := tx.ttype, Head(tx) + [Copy(1 + 6, Le(tx.ttime, 4))];
    var block := asked + [Copy(1 + 10, Le(tx.amsid, 4))];
    if t == BLG then asked
    else if t == INF then
      Head(tx) + [Copy(7, Le(tx.bbank, 2)), Copy(9, Le(tx.buser, 4)), Copy(13, Le(tx.ttime, 4))]
    else if t == LOG then
      Head(tx) + [Copy(7, Le(tx.abank, 2)), Copy(9, Le(tx.auser, 4)), Copy(13, Le(tx.ttime, 4))]
    else if t == VIP then asked + [Copy(1 + 10, tx.tinfo)]
    else if t == BLK then block + [Copy(1 + 14, Le(tx.buser, 4))]
    else if t == TXS then block + [Copy(1 + 14, Le(tx.buser, 4)), Copy(1 + 18, Le(tx.bbank, 2))]
    else if t == NOD then block + [Copy(1 + 14, Le(tx.bbank, 2))]
    else if t == MSG then block + [Copy(1 + 14, Le(tx.bbank, 2)), Copy(1 + 16, Le(tx.buser, 4))]
    else block
  }

  function OrderCopies(tx: Tx, len: nat): seq<Copy> {
    var t, base := tx.ttype, Head(tx) + [Copy(1 + 6, Le(tx.amsid, 4)), Copy(1 + 10, Le(tx.ttime, 4))];
    var bank := base + [Copy(1 + 14, Le(tx.bbank, 2))];
    if t == CON then Head(tx) + [Copy(1 + 6, tx.text)]
    else if t == BKY then bank + [Copy(1 + 16, tx.text)]
    else if t in {SUS, UUS} then bank + [Copy(1 + 16, Le(tx.buser, 4)), Copy(1 + 20, Le(tx.tmass, 2))]
    else if t in {SBS, UBS} then bank + [Copy(1 + 16, Le(tx.tmass, 4))]
    else if t == SAV || len == 1 + 2 + 4 + 4 + 4 then base
    else if t == KEY then base + [Copy(1 + 14, tx.text)]
    else if t in {BRO, MPT} then bank + [Copy(1 + 16, tx.text)]
    else
      var user := if len >= 1 + 2 + 4 + 4 + 4 + 2 + 4 then bank + [Copy(1 + 16, Le(tx.buser, 4))] else bank;
      if t == UOK then user + [Copy(1 + 20, tx.text)]
      else if len >= 1 + 2 + 4 + 4 + 4 + 2 + 4 + 8 + 32
      then user + [Copy(1 + 20, Le(tx.tmass, 8)), Copy(1 + 28, tx.tinfo)]
      else user
  }

  /** The copies of the constructors, behind the type byte. */
  function Copies(tx: Tx): seq<Copy>
    requires tx.ttype < TXSTYPE_MAX
  {
    if Asks(tx.ttype) then AskedCopies(tx) else OrderCopies(tx, TXSLEN[tx.ttype])
  }

  /** Each copy begins where the one before ended, the first behind the type byte. */
  ghost predicate Joined(c: seq<Copy>) {
    && |c| > 0 && c[0].at == 1
    && forall i :: 0 <= i < |c| - 1 ==> c[i + 1].at == c[i].at + |c[i].bytes|
  }

  function End(c: seq<Copy>): nat
    requires |c| > 0
  {
    c[|c| - 1].at + |c[|c| - 1].bytes|
  }

  lemma {:induction false} Joins(c: seq<Copy>, x: Copy)
    requires Joined(c) && x.at == End(c)
    ensures Joined(c + [x]) && End(c + [x]) == x.at + |x.bytes|
  {
  }

  lemma {:induction false} JoinsTwo(c: seq<Copy>, x: Copy, y: Copy)
    requires Joined(c) && x.at == End(c) && y.at == x.at + |x.bytes|
    ensures Joined(c + [x, y]) && End(c + [x, y]) == y.at + |y.bytes|
  {
    Joins(c, x);
    Joins(c + [x], y);
    assert c + [x] + [y] == c + [x, y];
    hide Joined, End;
  }

  lemma {:induction false} JoinsThree(c: seq<Copy>, x: Copy, y: Copy, z: Copy)
    requires Joined(c) && x.at == End(c) && y.at == x.at + |x.bytes| && z.at == y.at + |y.bytes|
    ensures Joined(c + [x, y, z]) && End(c + [x, y, z]) == z.at + |z.bytes|
  {
    JoinsTwo(c, x, y);
    Joins(c + [x, y], z);
    assert c + [x, y] + [z] == c + [x, y, z];
    hide Joined, End;
  }

  lemma {:induction false} HeadJoins(tx: Tx)
    ensures Joined(Head(tx)) && End(Head(tx)) == 7
  {
    hide Le;
  }

  lemma {:induction false} AskedFill(tx: Tx)
    requires Fits(tx) && Asks(tx.ttype)
    ensures Joined(AskedCopies(tx))
    ensures End(AskedCopies(tx)) == TXSLEN[tx.ttype] - (if tx.ttype == BLG then 4 else 0)
  {
    hide Le, Joined, End, Head;
    HeadJoins(tx);
    var t, asked := tx.ttype, Head(tx) + [Copy(1 + 6, Le(tx.ttime, 4))];
    Joins(Head(tx), Copy(1 + 6, Le(tx.ttime, 4)));
    Joins(asked, Copy(1 + 10, Le(tx.amsid, 4)));
    var block := asked + [Copy(1 + 10, Le(tx.amsid, 4))];
    if t == INF {
      JoinsThree(Head(tx), Copy(7, Le(tx.bbank, 2)), Copy(9, Le(tx.buser, 4)), Copy(13, Le(tx.ttime, 4)));
    } else if t == LOG {
      JoinsThree(Head(tx), Copy(7, Le(tx.abank, 2)), Copy(9, Le(tx.auser, 4)), Copy(13, Le(tx.ttime, 4)));
    } else if t == VIP {
      Joins(asked, Copy(1 + 10, tx.tinfo));
    } else if t == BLK {
      Joins(block, Copy(1 + 14, Le(tx.buser, 4)));
    } else if t == TXS {
      JoinsTwo(block, Copy(1 + 14, Le(tx.buser, 4)), Copy(1 + 18, Le(tx.bbank, 2)));
    } else if t == NOD {
      Joins(block, Copy(1 + 14, Le(tx.bbank, 2)));
    } else if t == MSG {
      JoinsTwo(block, Copy(1 + 14, Le(tx.bbank, 2)), Copy(1 + 16, Le(tx.buser, 4)));
    }
  }

  lemma {:induction false} OrderFill(tx: Tx)
    requires Fits(tx) && !Asks(tx.ttype)
    ensures Joined(OrderCopies(tx, TXSLEN[tx.ttype]))
    ensures End(OrderCopies(tx, TXSLEN[tx.ttype]))
      == TXSLEN[tx.ttype] + (if tx.ttype in {BRO, MPT} then |tx.text| else 0)
  {
    hide Le, Joined, End, Head;
    HeadJoins(tx);
    var t, base := tx.ttype, Head(tx) + [Copy(1 + 6, Le(tx.amsid, 4)), Copy(1 + 10, Le(tx.ttime, 4))];
    JoinsTwo(Head(tx), Copy(1 + 6, Le(tx.amsid, 4)), Copy(1 + 10, Le(tx.ttime, 4)));
    Joins(base, Copy(1 + 14, Le(tx.bbank, 2)));
    var bank := base + [Copy(1 + 14, Le(tx.bbank, 2))];
    if t == CON {
      Joins(Head(tx), Copy(1 + 6, tx.text));
    } else if t in {BKY, BRO, MPT} {
      Joins(bank, Copy(1 + 16, tx.text));
    } else if t in {SUS, UUS} {
      JoinsTwo(bank, Copy(1 + 16, Le(tx.buser, 4)), Copy(1 + 20, Le(tx.tmass, 2)));
    } else if t in {SBS, UBS} {
      Joins(bank, Copy(1 + 16, Le(tx.tmass, 4)));
    } else if t == KEY {
      Joins(base, Copy(1 + 14, tx.text));
    } else {
      Joins(bank, Copy(1 + 16, Le(tx.buser, 4)));
      var user := bank + [Copy(1 + 16, Le(tx.buser, 4))];
      if t == UOK {
        Joins(user, Copy(1 + 20, tx.text));
      } else {
        JoinsTwo(user, Copy(1 + 20, Le(tx.tmass, 8)), Copy(1 + 28, tx.tinfo));
      }
    }
  }

  /** The copies fill the length of the table, and the text behind it; a `BLG` leaves four bytes as they were. */
  lemma {:induction false} CopiesFill(tx: Tx)
    requires Fits(tx)
    ensures Joined(Copies(tx))
    ensures End(Copies(tx)) + (if tx.ttype == BLG then 4 else 0)
      == TXSLEN[tx.ttype] + (if tx.ttype in {BRO, MPT} then |tx.text| else 0)
  {
    if Asks(tx.ttype) {
      AskedFill(tx);
    } else {
      OrderFill(tx);
    }
    hide Le, AskedCopies, OrderCopies, Joined, End;
  }

  function Pieces(c: seq<Copy>): (r: seq<seq<byte>>)
    ensures |r| == |c|
  {
    seq(|c|, i requires 0 <= i < |c| => c[i].bytes)
  }

  /** The type byte and the fields, one after the other. */
  function Body(tx: Tx): seq<byte>
    requires tx.ttype < TXSTYPE_MAX
  {
    [tx.ttype] + Flat(Pieces(Copies(tx)))
  }

  lemma {:induction false} PlaceOf(c: seq<Copy>, i: nat)
    requires Joined(c) && i <= |c|
    ensures 1 + |Flat(Pieces(c)[..i])| == if i < |c| then c[i].at else End(c)
  {
    hide Flat;
    FlatOne([]);
    assert Pieces(c)[..0] == [];
    if i > 0 {
      PlaceOf(c, i - 1);
      FlatStep(Pieces(c), i - 1);
    }
  }

  lemma {:induction false} FlatStep(chunks: seq<seq<byte>>, i: nat)
    requires i < |chunks|
    ensures Flat(chunks[..i + 1]) == Flat(chunks[..i]) + chunks[i]
  {
    hide Flat;
    FlatConcat(chunks[..i], [chunks[i]]);
    FlatOne(chunks[i]);
    assert chunks[..i + 1] == chunks[..i] + [chunks[i]];
  }

  /** The type byte and all copies, in order. */
  method CopyAll(t: byte, copies: seq<Copy>, raw: seq<byte>) returns (data: seq<byte>)
    requires Joined(copies) && |raw| >= End(copies)
    ensures 1 + |Flat(Pieces(copies))| == End(copies)
    ensures data == [t] + Flat(Pieces(copies)) + raw[End(copies)..]
  {
    hide Flat;
    assert Pieces(copies)[..0] == [];
    FlatOne([]);
    PlaceBelow(copies, 0);
    data := raw[0 := t];
    assert data == [t] + [] + raw[1..];
    for i := 0 to |copies|
      invariant |data| == |raw|
      invariant var n := 1 + |Flat(Pieces(copies)[..i])|;
        n <= |raw| && data == [t] + Flat(Pieces(copies)[..i]) + raw[n..]
    {
      PlaceOf(copies, i);
      PlaceOf(copies, i + 1);
      PlaceBelow(copies, i + 1);
      FlatStep(Pieces(copies), i);
      var at, bytes := copies[i].at, copies[i].bytes;
      Overwrite(data, [t] + Flat(Pieces(copies)[..i]), bytes, raw, at);
      data := data[..at] + bytes + data[at + |bytes|..];
    }
    PlaceOf(copies, |copies|);
    assert Pieces(copies)[..|copies|] == Pieces(copies);
  }

  lemma Overwrite(data: seq<byte>, done: seq<byte>, bytes: seq<byte>, raw: seq<byte>, at: nat)
    requires at + |bytes| <= |raw| == |data| && |done| == at && data == done + raw[at..]
    ensures data[..at] + bytes + data[at + |bytes|..] == done + bytes + raw[at + |bytes|..]
  {
  }

  /** The constructor on a fresh buffer `raw`: the fields in front, and the rest as it was. */
  method Construct(tx: Tx, raw: seq<byte>) returns (data: seq<byte>)
    requires Fits(tx) && |raw| >= TXSLEN[tx.ttype] + TextSize(tx)
    ensures |Body(tx)| <= |raw| && data == Body(tx) + raw[|Body(tx)|..]
  {
    CopiesFill(tx);
    hide Flat, Copies, Joined, End;
    data := CopyAll(tx.ttype, Copies(tx), raw);
  }

  lemma {:induction false} PlaceBelow(c: seq<Copy>, i: nat)
    requires Joined(c) && i <= |c|
    ensures 1 + |Flat(Pieces(c)[..i])| <= End(c)
    decreases |c| - i
  {
    hide Flat;
    PlaceOf(c, i);
    if i < |c| {
      PlaceBelow(c, i + 1);
      FlatStep(Pieces(c), i);
    }
  }

  // ---------- on the network ----------

  function SignatureSize(t: nat): nat {
    if t in {CON, UOK} then 0 else 64
  }

  /** What the node adds behind the signature: the old key, the new account, or the account as it is. */
  function ExtraSize(t: nat): nat {
    if t == BKY then 32 else if t == USR then 4 + 32 else if t == SAV then USER_SIZE else 0
  }

  /** A transaction as it travels: its fields, the bytes a `BLG` leaves open, the signature and what the node adds. */
  ghost predicate IsForm(tx: Tx, form: seq<byte>) {
    && Fits(tx) && Body(tx) <= form
    && |form| == |Body(tx)| + (if tx.ttype == BLG then 4 else 0) + SignatureSize(tx.ttype) + ExtraSize(tx.ttype)
  }

  lemma {:induction false} BodySize(tx: Tx)
    requires Fits(tx)
    ensures |Body(tx)| == End(Copies(tx))
  {
    CopiesFill(tx);
    hide Flat, Copies;
    PlaceOf(Copies(tx), |Copies(tx)|);
    assert Pieces(Copies(tx))[..|Copies(tx)|] == Pieces(Copies(tx));
  }

  lemma {:induction false} PieceAt(t: byte, c: seq<Copy>, form: seq<byte>, i: nat)
    requires Joined(c) && i < |c| && [t] + Flat(Pieces(c)) <= form
    ensures c[i].at + |c[i].bytes| <= |form| && form[c[i].at..c[i].at + |c[i].bytes|] == c[i].bytes
  {
    hide Flat;
    var p := Pieces(c);
    PlaceOf(c, i);
    var tail := [p[i]] + p[i + 1..];
    assert p == p[..i] + tail;
    FlatConcat(p[..i], tail);
    FlatConcat([p[i]], p[i + 1..]);
    FlatOne(p[i]);
    Middle(form, [t] + Flat(p[..i]), p[i], Flat(p[i + 1..]));
  }

  lemma Middle(form: seq<byte>, a: seq<byte>, b: seq<byte>, rest: seq<byte>)
    requires a + (b + rest) <= form
    ensures |a| + |b| <= |form| && form[|a|..|a| + |b|] == b
  {
    SliceMiddle(a, b, rest);
    assert form[|a|..|a| + |b|] == (a + (b + rest))[|a|..|a| + |b|];
  }

  /** Field `i` of the form. */
  lemma {:induction false} FieldAt(tx: Tx, form: seq<byte>, i: nat)
    requires IsForm(tx, form) && i < |Copies(tx)|
    ensures var c := Copies(tx)[i]; c.at + |c.bytes| <= |form| && form[c.at..c.at + |c.bytes|] == c.bytes
  {
    CopiesFill(tx);
    hide Flat, Copies, Joined;
    PieceAt(tx.ttype, Copies(tx), form, i);
  }

  /** The size both functions announce is the size of the form, for every type. */
  lemma {:induction false} FormSize(st: Stray, tx: Tx, form: seq<byte>)
    requires IsForm(tx, form)
    ensures GetSize(st, form) == Some(|form|) && ParsedSize(form) == Some(|form|)
  {
    BodySize(tx);
    CopiesFill(tx);
    assert form[0] == tx.ttype;
    if tx.ttype in {BRO, MPT} {
      assert Copies(tx)[4] == Copy(15, Le(tx.bbank, 2));
      FieldAt(tx, form, 4);
      TwoBytes(tx.bbank);
      hide Le;
      assert form[15] == Le(tx.bbank, 2)[0] && form[16] == Le(tx.bbank, 2)[1];
    }
    hide Le, Flat, Copies, Body;
  }

  lemma {:induction false} TwoBytes(n: nat)
    requires n < 0x1_0000
    ensures Le(n, 2)[0] + 256 * (Le(n, 2)[1] as int) == n
  {
    assert Le(n, 2) == [n % 256] + Le(n / 256, 1);
    assert Le(n / 256, 1) == [n / 256 % 256] + Le(n / 256 / 256, 0);
  }

  /** The sizes on the network, type by type. */
  lemma {:induction false} NetworkSizes(st: Stray, s: seq<byte>)
    requires s != [] && NON < s[0] < TXSTYPE_MAX
    ensures GetSize(st, s).Some?
    ensures var t, size, len := s[0], GetSize(st, s).value, At(s, 15) as int + 256 * (At(s, 16) as int);
      && (t == CON ==> size == 23) && (t == UOK ==> size == 53) && (t == BRO ==> size == 17 + len + 64)
      && (t == PUT ==> size == 61 + 64) && (t == MPT ==> size == 17 + 14 * len + 64)
      && (t == USR ==> size == 17 + 64 + 36) && (t == BNK ==> size == 15 + 64) && (t == GET ==> size == 21 + 64)
      && (t == KEY ==> size == 47 + 64) && (t == BKY ==> size == 49 + 64 + 32)
      && (t == SUS || t == UUS ==> size == 23 + 64) && (t == SBS || t == UBS ==> size == 21 + 64)
      && (t == SAV ==> size == 15 + 64 + 128)
  {
  }

  lemma {:induction false} AskedSizes(st: Stray, s: seq<byte>)
    requires s != [] && INF <= s[0] < TXSTYPE_MAX
    ensures GetSize(st, s).Some?
    ensures var t, size := s[0], GetSize(st, s).value;
      && (t == INF || t == LOG || t == NOD ==> size == 17 + 64)
      && (t == BLG || t == SIG || t == NDS || t == MGS ==> size == 15 + 64) && (t == BLK ==> size == 19 + 64)
      && (t == TXS || t == MSG ==> size == 21 + 64) && (t == VIP ==> size == 43 + 64) && (t == 27 ==> size == 61 + 64)
  {
  }

  /** The placeholder of a failed transaction, for a size below 2^24. */
  function Placeholder(len: nat): seq<byte> {
    var size := if len < 4 then 4 else len;
    [NON] + Le(size, 3) + seq(size - 4, i => 0)
  }

  lemma {:induction false} PlaceholderSize(st: Stray, len: nat)
    requires len < 0x100_0000
    ensures var size := if len < 4 then 4 else len;
      |Placeholder(len)| == size && GetSize(st, Placeholder(len)) == Some(size)
  {
    var size := if len < 4 then 4 else len;
    ThreeBytes(size);
    hide Le;
    assert Placeholder(len)[1..4] == Le(size, 3);
  }

  lemma {:induction false} ThreeBytes(n: nat)
    requires n < 0x100_0000
    ensures Le(n, 3)[0] + 256 * (Le(n, 3)[1] as int) + 0x1_0000 * (Le(n, 3)[2] as int) == n
  {
    assert Le(n, 3) == [n % 256] + Le(n / 256, 2);
    assert Le(n / 256, 2) == [n / 256 % 256] + Le(n / 256 / 256, 1);
    assert Le(n / 256 / 256, 1) == [n / 256 / 256 % 256] + Le(n / 256 / 256 / 256, 0);
  }

  // ---------- reading ----------

  /** A field of `w` bytes at `at`. */
  function Field(s: seq<byte>, at: nat, w: nat): nat {
    if at + w <= |s| then FromLe(s[at..at + w]) else 0
  }

  function Slice(s: seq<byte>, at: nat, w: nat): seq<byte> {
    if at + w <= |s| then s[at..at + w] else []
  }

  function Blank(): (r: seq<byte>)
    ensures |r| == 32 && forall i :: 0 <= i < 32 ==> r[i] == 0
  {
    seq(32, _ => 0)
  }

  /** The answer of `parse` for a question. */
  function AskedParse(s: seq<byte>, p: Tx): Tx {
    var t, q := p.ttype, p.(ttime := Field(s, 1 + 6, 4));
    var block := q.(amsid := Field(s, 1 + 10, 4));
    if t == BLG then q
    else if t in {INF, LOG}
    then p.(bbank := Field(s, 1 + 6, 2), buser := Field(s, 1 + 8, 4), ttime := Field(s, 1 + 12, 4))
    else if t == VIP then q.(tinfo := Slice(s, 1 + 10, 32))
    else if t == BLK then block.(buser := Field(s, 1 + 14, 4))
    else if t == TXS then block.(buser := Field(s, 1 + 14, 4), bbank := Field(s, 1 + 18, 2))
    else if t == NOD then block.(bbank := Field(s, 1 + 14, 2))
    else if t == MSG then block.(bbank := Field(s, 1 + 14, 2), buser := Field(s, 1 + 16, 4))
    else block
  }

  function OrderParse(s: seq<byte>, p: Tx): Tx {
    var t, base := p.ttype, p.(amsid := Field(s, 1 + 6, 4), ttime := Field(s, 1 + 10, 4));
    var bank := base.(bbank := Field(s, 1 + 14, 2));
    if t == CON then p
    else if t == SAV then base
    else if t in {SUS, UUS} then bank.(buser := Field(s, 1 + 16, 4), tmass := Field(s, 1 + 20, 2))
    else if t in {SBS, UBS} then bank.(tmass := Field(s, 1 + 16, 4))
    else if t in {GET, UOK} then bank.(buser := Field(s, 1 + 16, 4))
    else if t == PUT then
      bank.(buser := Field(s, 1 + 16, 4), tmass := Field(s, 1 + 20, 8), tinfo := Slice(s, 1 + 28, 32))
    else bank
  }

  /** `parse`, on a fresh object, for the types whose fields it copies. */
  function Parse(s: seq<byte>): Tx
    requires s != []
  {
    var p := Tx(s[0], Field(s, 1, 2), Field(s, 1 + 2, 4), 0, 0, 0, 0, 0, Blank(), []);
    if Asks(s[0]) then AskedParse(s, p) else OrderParse(s, p)
  }

  /** What survives: the fields both sides know; the mass cut to what is written of it. */
  function Survives(tx: Tx): Tx {
    var t := tx.ttype;
    Tx(t, tx.abank, tx.auser,
       if t in {CON, INF, LOG, BLG, VIP} then 0 else tx.amsid,
       if t == CON then 0 else tx.ttime,
       if t == LOG then tx.abank else if t in {CON, SAV, BLG, BLK, VIP, SIG, NDS, MGS} then 0 else tx.bbank,
       if t == LOG then tx.auser else if t in {SUS, UUS, GET, UOK, PUT, INF, BLK, TXS, MSG} then tx.buser else 0,
       if t in {SUS, UUS} then tx.tmass % 0x1_0000 else if t in {SBS, UBS} then tx.tmass % 0x1_0000_0000
       else if t == PUT then tx.tmass else 0,
       if t in {VIP, PUT} then tx.tinfo else Blank(), [])
  }

  /** The low `k` bytes of a number. */
  lemma {:induction false} LeMod(n: nat, k: nat)
    ensures Pow256(k) > 0 && FromLe(Le(n, k)) == n % Pow256(k)
  {
    if k > 0 {
      LeMod(n / 256, k - 1);
      assert Le(n, k)[1..] == Le(n / 256, k - 1);
      ModStep(n, Pow256(k - 1));
    }
  }

  lemma {:induction false} ModStep(n: nat, p: nat)
    requires p > 0
    ensures n % (256 * p) == n % 256 + 256 * (n / 256 % p)
  {
    var a := n / 256;
    var q, r := a / p, a % p;
    assert a == p * q + r;
    assert n == 256 * a + n % 256;
    assert 256 * (p * q) == (256 * p) * q;
    Arith.DivUnique(n, 256 * p, q, 256 * r + n % 256);
  }

  lemma {:induction false} Widths(n: nat)
    ensures FromLe(Le(n, 2)) == n % 0x1_0000 && FromLe(Le(n, 4)) == n % 0x1_0000_0000
    ensures FromLe(Le(n, 8)) == n % 0x1_0000_0000_0000_0000
  {
    assert Pow256(2) == 0x1_0000;
    assert Pow256(4) == 0x1_0000 * Pow256(2);
    assert Pow256(6) == 0x1_0000 * Pow256(4);
    assert Pow256(8) == 0x1_0000 * Pow256(6);
    hide Le, FromLe, Pow256;
    LeMod(n, 2);
    LeMod(n, 4);
    LeMod(n, 8);
  }

  /** A copied number is read back where it was put, cut to its width. */
  lemma {:induction false} NumberBack(tx: Tx, form: seq<byte>, i: nat, at: nat, n: nat, w: nat)
    requires IsForm(tx, form) && i < |Copies(tx)| && Copies(tx)[i] == Copy(at, Le(n, w))
    ensures w == 2 ==> Field(form, at, w) == n % 0x1_0000
    ensures w == 4 ==> Field(form, at, w) == n % 0x1_0000_0000
    ensures w == 8 ==> Field(form, at, w) == n % 0x1_0000_0000_0000_0000
  {
    FieldAt(tx, form, i);
    Widths(n);
    hide Le, FromLe, Copies, IsForm;
  }

  lemma {:induction false} BytesBack(tx: Tx, form: seq<byte>, i: nat, at: nat, b: seq<byte>)
    requires IsForm(tx, form) && i < |Copies(tx)| && Copies(tx)[i] == Copy(at, b)
    ensures Slice(form, at, |b|) == b
  {
    FieldAt(tx, form, i);
    hide Copies, IsForm;
  }

  lemma HeadPlaces(tx: Tx)
    requires tx.ttype < TXSTYPE_MAX
    ensures |Copies(tx)| >= 2 && Copies(tx)[0] == Copy(1, Le(tx.abank, 2)) && Copies(tx)[1] == Copy(3, Le(tx.auser, 4))
  {
    hide Le;
  }

  lemma FormIs(tx: Tx, form: seq<byte>)
    requires IsForm(tx, form)
    ensures Fits(tx) && form != [] && form[0] == tx.ttype < TXSTYPE_MAX
    ensures tx.abank < 0x1_0000 && tx.auser < 0x1_0000_0000 && tx.amsid < 0x1_0000_0000 && tx.ttime < 0x1_0000_0000
    ensures tx.bbank < 0x1_0000 && tx.buser < 0x1_0000_0000 && tx.tmass < 0x1_0000_0000_0000_0000 && |tx.tinfo| == 32
  {
    hide Flat, Copies;
    assert Body(tx)[0] == tx.ttype;
  }

  lemma {:induction false} HeadBack(tx: Tx, form: seq<byte>)
    requires IsForm(tx, form)
    ensures tx.ttype < TXSTYPE_MAX && Field(form, 1, 2) == tx.abank && Field(form, 3, 4) == tx.auser
  {
    hide *;
    FormIs(tx, form);
    HeadPlaces(tx);
    NumberBack(tx, form, 0, 1, tx.abank, 2);
    NumberBack(tx, form, 1, 3, tx.auser, 4);
  }

  predicate ForNode(t: nat) {
    t == INF || t == LOG
  }

  lemma {:induction false} AskedPlaces(tx: Tx)
    requires tx.ttype < TXSTYPE_MAX && Asks(tx.ttype)
    ensures var c, t := Copies(tx), tx.ttype;
      && (ForNode(t) ==> |c| == 5 && c[2] == Copy(7, Le(if t == INF then tx.bbank else tx.abank, 2)))
      && (ForNode(t) ==> c[3] == Copy(9, Le(if t == INF then tx.buser else tx.auser, 4)))
      && (ForNode(t) ==> c[4] == Copy(13, Le(tx.ttime, 4)))
      && (!ForNode(t) ==> |c| >= 3 && c[2] == Copy(7, Le(tx.ttime, 4)))
      && (t == VIP ==> |c| == 4 && c[3] == Copy(11, tx.tinfo))
      && (!ForNode(t) && t != VIP && t != BLG ==> |c| >= 4 && c[3] == Copy(11, Le(tx.amsid, 4)))
      && (t == BLK || t == TXS ==> |c| >= 5 && c[4] == Copy(15, Le(tx.buser, 4)))
      && (t == TXS ==> |c| == 6 && c[5] == Copy(19, Le(tx.bbank, 2)))
      && (t == NOD || t == MSG ==> |c| >= 5 && c[4] == Copy(15, Le(tx.bbank, 2)))
      && (t == MSG ==> |c| == 6 && c[5] == Copy(17, Le(tx.buser, 4)))
  {
    hide Le;
  }

  lemma NodeAsks(t: nat)
    ensures ForNode(t) ==> Asks(t)
  {
  }

  lemma {:induction false} NodeBack(tx: Tx, form: seq<byte>)
    requires IsForm(tx, form) && ForNode(tx.ttype)
    ensures Field(form, 7, 2) == if tx.ttype == INF then tx.bbank else tx.abank
    ensures Field(form, 9, 4) == if tx.ttype == INF then tx.buser else tx.auser
    ensures Field(form, 13, 4) == tx.ttime
  {
    hide *;
    FormIs(tx, form);
    NodeAsks(tx.ttype);
    AskedPlaces(tx);
    var t := tx.ttype;
    NumberBack(tx, form, 2, 7, if t == INF then tx.bbank else tx.abank, 2);
    NumberBack(tx, form, 3, 9, if t == INF then tx.buser else tx.auser, 4);
    NumberBack(tx, form, 4, 13, tx.ttime, 4);
  }

  lemma {:induction false} AskedBack(tx: Tx, form: seq<byte>)
    requires IsForm(tx, form) && Asks(tx.ttype) && !ForNode(tx.ttype)
    ensures Field(form, 7, 4) == tx.ttime
    ensures tx.ttype == VIP ==> Slice(form, 11, 32) == tx.tinfo
    ensures tx.ttype != VIP && tx.ttype != BLG ==> Field(form, 11, 4) == tx.amsid
    ensures tx.ttype == BLK || tx.ttype == TXS ==> Field(form, 15, 4) == tx.buser
    ensures tx.ttype == TXS ==> Field(form, 19, 2) == tx.bbank
    ensures tx.ttype == NOD || tx.ttype == MSG ==> Field(form, 15, 2) == tx.bbank
    ensures tx.ttype == MSG ==> Field(form, 17, 4) == tx.buser
  {
    hide *;
    FormIs(tx, form);
    AskedPlaces(tx);
    var t := tx.ttype;
    NumberBack(tx, form, 2, 7, tx.ttime, 4);
    if t == VIP {
      BytesBack(tx, form, 3, 11, tx.tinfo);
    } else if t != BLG {
      NumberBack(tx, form, 3, 11, tx.amsid, 4);
    }
    if t == BLK || t == TXS {
      NumberBack(tx, form, 4, 15, tx.buser, 4);
    } else if t == NOD || t == MSG {
      NumberBack(tx, form, 4, 15, tx.bbank, 2);
    }
    if t == TXS {
      NumberBack(tx, form, 5, 19, tx.bbank, 2);
    } else if t == MSG {
      NumberBack(tx, form, 5, 17, tx.buser, 4);
    }
  }

  predicate SetsUser(t: nat) {
    t == SUS || t == UUS
  }

  predicate SetsBank(t: nat) {
    t == SBS || t == UBS
  }

  predicate Bare(t: nat) {
    t == SAV || t == BNK || t == KEY
  }

  lemma {:induction false} OrderPlaces(tx: Tx)
    requires NON < tx.ttype < TXSTYPE_MAX && !Asks(tx.ttype) && tx.ttype != CON
    ensures var c, t := Copies(tx), tx.ttype;
      && |c| >= 4 && c[2] == Copy(7, Le(tx.amsid, 4)) && c[3] == Copy(11, Le(tx.ttime, 4))
      && (!Bare(t) ==> |c| >= 5 && c[4] == Copy(15, Le(tx.bbank, 2)))
      && (SetsUser(t) || t == GET || t == UOK || t == PUT ==> |c| >= 6 && c[5] == Copy(17, Le(tx.buser, 4)))
      && (SetsUser(t) ==> |c| == 7 && c[6] == Copy(21, Le(tx.tmass, 2)))
      && (SetsBank(t) ==> |c| == 6 && c[5] == Copy(17, Le(tx.tmass, 4)))
      && (t == PUT ==> |c| == 8 && c[6] == Copy(21, Le(tx.tmass, 8)) && c[7] == Copy(29, tx.tinfo))
  {
    hide Le;
  }

  lemma {:induction false} OrderBack(tx: Tx, form: seq<byte>)
    requires IsForm(tx, form) && !Asks(tx.ttype) && tx.ttype != CON
    ensures Field(form, 7, 4) == tx.amsid && Field(form, 11, 4) == tx.ttime
    ensures !Bare(tx.ttype) ==> Field(form, 15, 2) == tx.bbank
    ensures SetsUser(tx.ttype) || tx.ttype == GET || tx.ttype == UOK || tx.ttype == PUT
      ==> Field(form, 17, 4) == tx.buser
    ensures SetsUser(tx.ttype) ==> Field(form, 21, 2) == tx.tmass % 0x1_0000
    ensures SetsBank(tx.ttype) ==> Field(form, 17, 4) == tx.tmass % 0x1_0000_0000
    ensures tx.ttype == PUT ==> Field(form, 21, 8) == tx.tmass && Slice(form, 29, 32) == tx.tinfo
  {
    hide *;
    FormIs(tx, form);
    OrderFits(tx);
    OrderPlaces(tx);
    var t := tx.ttype;
    NumberBack(tx, form, 2, 7, tx.amsid, 4);
    NumberBack(tx, form, 3, 11, tx.ttime, 4);
    if !Bare(t) {
      NumberBack(tx, form, 4, 15, tx.bbank, 2);
    }
    if SetsUser(t) || t == GET || t == UOK || t == PUT {
      NumberBack(tx, form, 5, 17, tx.buser, 4);
    }
    if SetsUser(t) {
      NumberBack(tx, form, 6, 21, tx.tmass, 2);
    } else if SetsBank(t) {
      NumberBack(tx, form, 5, 17, tx.tmass, 4);
    } else if t == PUT {
      NumberBack(tx, form, 6, 21, tx.tmass, 8);
      BytesBack(tx, form, 7, 29, tx.tinfo);
    }
  }

  lemma OrderFits(tx: Tx)
    requires Fits(tx)
    ensures NON < tx.ttype < TXSTYPE_MAX
  {
  }

  /** `parse` gives back what the constructor wrote, for every type but the two whose next bytes it takes for a node. */
  lemma {:induction false} ParseBack(tx: Tx, form: seq<byte>)
    requires IsForm(tx, form) && tx.ttype != BNK && tx.ttype != KEY
    ensures form != [] && Parse(form) == Survives(tx)
  {
    FormIs(tx, form);
    HeadBack(tx, form);
    if Asks(tx.ttype) {
      if ForNode(tx.ttype) {
        NodeBack(tx, form);
      } else {
        AskedBack(tx, form);
      }
    } else if tx.ttype != CON {
      OrderBack(tx, form);
    }
    hide IsForm, Field, Slice, Blank;
  }

  /** Of a `BNK` or `KEY` it reads as node what follows there: the signature or the key. */
  lemma {:induction false} ParseReadsOn(tx: Tx, form: seq<byte>)
    requires IsForm(tx, form) && (tx.ttype == BNK || tx.ttype == KEY)
    ensures form != [] && Parse(form) == Survives(tx.(bbank := Field(form, 15, 2)))
    ensures |form| >= 17 && Field(form, 15, 2) == FromLe(form[15..17])
  {
    FormIs(tx, form);
    HeadBack(tx, form);
    OrderBack(tx, form);
    LongForm(tx, form);
    hide IsForm, FromLe, Slice, Blank;
  }

  lemma {:induction false} LongForm(tx: Tx, form: seq<byte>)
    requires IsForm(tx, form) && (tx.ttype == BNK || tx.ttype == KEY)
    ensures |form| >= 17
  {
    BodySize(tx);
    CopiesFill(tx);
    hide Copies, Flat, Body, End, Joined;
  }
}
