/** The undo file of each block and the account reads that go back to the start of a block. */
module Undo {
  import opened Binary
  import opened Words
  import opened Limbs
  import Arith

  /** An account; `msid` is positive for every account that exists. */
  datatype User = User(msid: nat, body: seq<nat>)

  /** What a hole in a file reads as. */
  const HOLE: User := User(0, [])

  function At(file: seq<User>, uid: nat): User {
    if uid < |file| then file[uid] else HOLE
  }

  predicate Exists(file: seq<User>, uid: nat) {
    At(file, uid).msid > 0
  }

  /** The file after a write at `uid`, with a hole before it where needed. */
  function Written(file: seq<User>, uid: nat, u: User): (r: seq<User>)
    ensures forall i: nat :: At(r, i) == if i == uid then u else At(file, i)
  {
    if uid < |file| then file[uid := u] else file + seq(uid - |file|, i => HOLE) + [u]
  }

  // ---------- the bitmap ----------

  /** `changed[uid / 64] & (1 << uid % 64)` */
  predicate Marked(changed: seq<u64>, uid: nat) {
    uid / 64 < |changed| && And(changed[uid / 64], Pow2(uid % 64)) != 0
  }

  /** `changed[i] |= j` */
  method Mark(changed: seq<u64>, uid: nat) returns (r: seq<u64>)
    requires uid / 64 < |changed|
    ensures |r| == |changed| && forall v: nat :: Marked(r, v) <==> v == uid || Marked(changed, v)
  {
    hide And, Or, Pow2, Shr, Bit;
    var i, j := uid / 64, uid % 64;
    Word64();
    Pow2Strict(j, 64);
    OrBelow(changed[i], Pow2(j), 64);
    r := changed[i := Or(changed[i], Pow2(j))];
    forall v: nat ensures Marked(r, v) <==> v == uid || Marked(changed, v) {
      if v / 64 == i {
        AndBit(changed[i], v % 64);
        AndBit(r[i], v % 64);
        OrBit(changed[i], j, v % 64);
      }
    }
  }

  lemma Pow2Strict(j: nat, k: nat)
    requires j < k
    ensures Pow2(j) < Pow2(k)
  {
    hide Pow2;
    Pow2Step(j);
    Pow2Monotone(j + 1, k);
    PowPositive(j);
  }

  lemma PowPositive(j: nat)
    ensures Pow2(j) > 0
  {
  }

  /** `changed.resize(n)`: new words are zero. */
  method Resize(changed: seq<u64>, n: nat) returns (r: seq<u64>)
    requires n >= |changed|
    ensures |r| == n && forall v: nat :: Marked(r, v) <==> Marked(changed, v)
  {
    hide And, Pow2;
    r := changed + seq(n - |changed|, i => 0);
    forall v: nat ensures Marked(r, v) <==> Marked(changed, v) {
      if |changed| <= v / 64 < n {
        NoBit(v % 64);
      }
    }
  }

  lemma NoBit(k: nat)
    ensures And(0, Pow2(k)) == 0
  {
  }

  // ---------- one block ----------

  /**
   * For every account that existed at the start of the block: its entry in the undo file is its value
   * then; without an entry it still has that value; and it has not ceased to exist. An account with an
   * entry that exists does so still.
   */
  ghost predicate Kept(start: seq<User>, entry: map<nat, User>, file: seq<User>) {
    && (forall uid: nat {:trigger At(start, uid)} :: Exists(start, uid) ==> KeptAt(start, entry, file, uid))
    && (forall uid :: uid in entry && entry[uid].msid > 0 ==> Exists(file, uid))
  }

  ghost predicate KeptAt(start: seq<User>, entry: map<nat, User>, file: seq<User>, uid: nat) {
    (if uid in entry then entry[uid] == At(start, uid) else At(file, uid) == At(start, uid)) && Exists(file, uid)
  }

  /** The bitmap says which accounts have an entry. */
  ghost predicate Matches(changed: seq<u64>, entry: map<nat, User>) {
    forall uid: nat :: Marked(changed, uid) <==> uid in entry
  }

  function EntryAt(undo: map<nat, map<nat, User>>, block: nat): map<nat, User> {
    if block in undo then undo[block] else map[]
  }

  /** New entries hold what the accounts were at the start, and nothing for accounts that do not exist. */
  ghost predicate Saves(start: seq<User>, entry: map<nat, User>, file: seq<User>, saved: map<nat, User>) {
    forall uid :: uid in saved && uid !in entry ==>
      (Exists(start, uid) ==> saved[uid] == At(start, uid)) && (saved[uid].msid > 0 ==> Exists(file, uid))
  }

  /** Exactly such entries can be added. */
  lemma {:induction false} KeptSaveIff(start: seq<User>, entry: map<nat, User>, file: seq<User>, saved: map<nat, User>)
    requires Kept(start, entry, file)
    ensures Kept(start, saved + entry, file) <==> Saves(start, entry, file, saved)
  {
    hide At;
    var after := saved + entry;
    if Saves(start, entry, file, saved) {
      forall uid: nat | Exists(start, uid) ensures KeptAt(start, after, file, uid) {
        assert KeptAt(start, entry, file, uid);
      }
    }
    if Kept(start, after, file) {
      forall uid | uid in saved && uid !in entry
        ensures (Exists(start, uid) ==> saved[uid] == At(start, uid)) && (saved[uid].msid > 0 ==> Exists(file, uid))
      {
        assert uid in after && after[uid] == saved[uid];
        if Exists(start, uid) {
          assert KeptAt(start, after, file, uid);
        }
      }
    }
  }

  /** The current values of accounts are such entries. */
  lemma {:induction false} CurrentSaves(start: seq<User>, entry: map<nat, User>, file: seq<User>, saved: map<nat, User>)
    requires Kept(start, entry, file)
    requires forall uid :: uid in saved && uid !in entry ==> saved[uid] == At(file, uid)
    ensures Saves(start, entry, file, saved)
  {
    hide At;
    forall uid | uid in saved && uid !in entry
      ensures Exists(start, uid) ==> saved[uid] == At(start, uid)
    {
      if Exists(start, uid) {
        assert KeptAt(start, entry, file, uid);
      }
    }
  }

  /** A write that changes no account without an entry and lets none cease to exist. */
  ghost predicate Writes(start: seq<User>, entry: map<nat, User>, uid: nat, u: User) {
    && (Exists(start, uid) ==> u.msid > 0 && (uid in entry || u == At(start, uid)))
    && (uid in entry && entry[uid].msid > 0 ==> u.msid > 0)
  }

  /** Exactly such a write can be made. */
  lemma {:induction false} KeptWriteIff(start: seq<User>, entry: map<nat, User>, file: seq<User>, uid: nat, u: User)
    requires Kept(start, entry, file)
    ensures Kept(start, entry, Written(file, uid, u)) <==> Writes(start, entry, uid, u)
  {
    var after := Written(file, uid, u);
    assert At(after, uid) == u;
    hide Written;
    if Writes(start, entry, uid, u) {
      forall v: nat | Exists(start, v) ensures KeptAt(start, entry, after, v) {
        assert KeptAt(start, entry, file, v);
      }
      forall v | v in entry && entry[v].msid > 0 ensures Exists(after, v) {
        assert At(after, v) == if v == uid then u else At(file, v);
      }
    }
    if Kept(start, entry, after) {
      assert uid in entry && entry[uid].msid > 0 ==> Exists(after, uid);
      if Exists(start, uid) {
        assert KeptAt(start, entry, after, uid);
      }
    }
  }

  lemma KeptStart(file: seq<User>)
    ensures Kept(file, map[], file)
  {
    hide At;
    forall uid: nat | Exists(file, uid) ensures KeptAt(file, map[], file, uid) {
    }
  }

  /** The loop of `save_undo`: an account whose bit is set is skipped. */
  method SaveEntries(saved: map<nat, User>, changed: seq<u64>, entry: map<nat, User>)
    returns (marks: seq<u64>, after: map<nat, User>)
    requires Matches(changed, entry) && forall uid :: uid in saved ==> uid / 64 < |changed|
    ensures Matches(marks, after) && |marks| == |changed|
    ensures after == saved + entry
  {
    marks, after := changed, entry;
    var keys := saved.Keys;
    hide Marked;
    while keys != {}
      invariant keys <= saved.Keys && |marks| == |changed| && Matches(marks, after)
      invariant forall uid :: uid in after <==> uid in entry || (uid in saved && uid !in keys)
      invariant forall uid :: uid in after ==> after[uid] == if uid in entry then entry[uid] else saved[uid]
    {
      var uid :| uid in keys;
      keys := keys - {uid};
      if Marked(marks, uid) {
        continue;
      }
      marks := Mark(marks, uid);
      after := after[uid := saved[uid]];
    }
  }

  // ---------- all blocks ----------

  /** What every closed block's undo file says about the accounts at its start and at the start of the next. */
  ghost predicate Chain(step: nat, first: nat, now: nat, undo: map<nat, map<nat, User>>, start: map<nat, seq<User>>) {
    && step > 0 && now % step == 0 && first % step == 0 && first <= now
    && (forall t :: first <= t <= now && t % step == 0 ==> t in start)
    && (forall t {:trigger EntryAt(undo, t)} :: first <= t < now && t % step == 0
          ==> t in start && t + step in start && Kept(start[t], EntryAt(undo, t), start[t + step]))
  }

  /** The bitmap covers the accounts and says which have an entry. */
  ghost predicate Covers(changed: seq<u64>, users: nat, entry: map<nat, User>) {
    Matches(changed, entry) && users <= 64 * |changed| && |changed| <= 1 + users / 64
  }

  /** Writing to the undo file of the current block leaves the closed ones alone. */
  lemma ChainSave(step: nat, first: nat, now: nat, undo: map<nat, map<nat, User>>, start: map<nat, seq<User>>,
                  entry: map<nat, User>)
    requires Chain(step, first, now, undo, start)
    ensures Chain(step, first, now, undo[now := entry], start)
  {
    hide Kept;
    var after := undo[now := entry];
    forall t | first <= t < now && t % step == 0
      ensures t in start && t + step in start && Kept(start[t], EntryAt(after, t), start[t + step])
    {
      assert EntryAt(after, t) == EntryAt(undo, t);
    }
  }

  lemma {:induction false} NextMultiple(t: nat, now: nat, step: nat)
    requires step > 0 && t % step == 0 && now % step == 0
    ensures (now + step) % step == 0 && (t < now + step ==> t <= now) && (t < now ==> t + step <= now)
  {
    var a, b := t / step, now / step;
    assert t == step * a && now == step * b;
    Between(step, a, b);
  }

  lemma Between(step: nat, a: nat, b: nat)
    requires step > 0
    ensures (step * b + step) % step == 0
    ensures step * a < step * b + step ==> step * a <= step * b
    ensures step * a < step * b ==> step * a + step <= step * b
  {
    Arith.DivUnique(step * b + step, step, b + 1, 0);
    if a > b {
      Arith.MulGap(step, a, b);
    }
    if a < b {
      Arith.MulGap(step, b, a);
    }
  }

  /** The end of a block: its undo file is closed and the next block starts with the accounts as they are. */
  lemma {:induction false} ChainNext(step: nat, first: nat, now: nat, undo: map<nat, map<nat, User>>,
                                     start: map<nat, seq<User>>, file: seq<User>)
    requires Chain(step, first, now, undo, start) && now in start && Kept(start[now], EntryAt(undo, now), file)
    ensures Chain(step, first, now + step, undo, start[now + step := file])
  {
    hide Kept;
    var after := start[now + step := file];
    NextMultiple(now, now, step);
    forall t | first <= t <= now + step && t % step == 0 ensures t in after {
      NextMultiple(t, now, step);
    }
    forall t | first <= t < now + step && t % step == 0
      ensures t in after && t + step in after && Kept(after[t], EntryAt(undo, t), after[t + step])
    {
      NextMultiple(t, now, step);
      if t < now {
        assert Kept(start[t], EntryAt(undo, t), start[t + step]);
      } else {
        assert t == now;
      }
    }
  }

  class Bank {
    const blocksec: nat
    var file: seq<User>
    var users: nat
    var changed: seq<u64>
    /** The undo file of each block, with the accounts written to it. */
    var undo: map<nat, map<nat, User>>
    var now: nat
    /** The accounts at the start of each block since `first`. */
    ghost var start: map<nat, seq<User>>
    ghost const first: nat

    /** The bitmap of the current block is in step with its undo file, and no later block has one. */
    ghost predicate Shaped()
      reads this
    {
      blocksec > 0 && Covers(changed, users, EntryAt(undo, now)) && forall t :: t in undo ==> t <= now
    }

    /** The undo files record the accounts at the start of every block. */
    ghost predicate Recorded()
      reads this
    {
      Chain(blocksec, first, now, undo, start) && now in start && Kept(start[now], EntryAt(undo, now), file)
    }

    /** A node with its accounts at the start of a block, before any change. */
    constructor (blocksec: nat, now: nat, file: seq<User>, changed: seq<u64>)
      requires blocksec > 0 && now % blocksec == 0
      requires |changed| == 1 + |file| / 64 && forall uid: nat :: !Marked(changed, uid)
      ensures Shaped() && Recorded() && this.blocksec == blocksec && this.now == now && this.file == file
      ensures first == now && undo == map[] && start == map[now := file]
    {
      this.blocksec, this.now, this.file, this.changed, users, undo := blocksec, now, file, changed, |file|, map[];
      start, first := map[now := file], now;
      new;
      hide Marked;
      KeptStart(file);
      hide Kept;
    }

    /**
     * `save_undo`: the first value saved for an account in a block is the one kept. The record stays one exactly
     * when the new entries are values from the start of the block, as the current ones of unsaved accounts are.
     */
    method SaveUndo(saved: map<nat, User>, count: nat)
      requires Shaped() && forall uid :: uid in saved ==> uid < users || uid < count
      modifies this`users, this`changed, this`undo
      ensures Shaped() && users == (if old(users) <= count then count else old(users))
      ensures EntryAt(undo, now) == saved + old(EntryAt(undo, now))
      ensures forall t :: t != now ==> EntryAt(undo, t) == old(EntryAt(undo, t))
      ensures old(Recorded()) ==> (Recorded() <==> Saves(start[now], old(EntryAt(undo, now)), file, saved))
      ensures
        && old(Recorded())
        && (forall uid :: uid in saved ==> uid in old(EntryAt(undo, now)) || saved[uid] == At(file, uid))
        ==> Recorded()
    {
      hide Kept, Marked, At, Chain, Matches, Saves;
      var entry := EntryAt(undo, now);
      var marks := changed;
      if users <= count {
        users := count;
        marks := Resize(marks, 1 + count / 64);
        MatchesResized(changed, marks, entry);
      }
      var after;
      marks, after := SaveEntries(saved, marks, entry);
      changed := marks;
      if old(Recorded()) {
        ChainSave(blocksec, first, now, undo, start, after);
        KeptSaveIff(start[now], entry, file, saved);
        if forall uid :: uid in saved && uid !in entry ==> saved[uid] == At(file, uid) {
          CurrentSaves(start[now], entry, file, saved);
        }
      }
      undo := undo[now := after];
    }

    /**
     * `put_user`: a write to the account file. The record stays one exactly when it does not change an account of the
     * start of the block without an entry, nor let an account cease to exist.
     */
    method PutUser(u: User, uid: nat)
      requires Shaped()
      modifies this`file, this`users, this`changed
      ensures Shaped() && file == Written(old(file), uid, u)
      ensures users == if old(users) <= uid then uid + 1 else old(users)
      ensures old(Recorded()) ==> (Recorded() <==> Writes(start[now], EntryAt(undo, now), uid, u))
      ensures old(Recorded()) && u.msid > 0 && (uid in EntryAt(undo, now) || !old(Exists(file, uid))) ==> Recorded()
    {
      hide Kept, Marked, At, Chain, Matches, Written;
      if Recorded() {
        KeptWriteIff(start[now], EntryAt(undo, now), file, uid, u);
        KeptExists(start[now], EntryAt(undo, now), file, uid);
      }
      file := Written(file, uid, u);
      if users <= uid {
        users := uid + 1;
        ghost var before := changed;
        changed := Resize(changed, 1 + uid / 64);
        MatchesResized(before, changed, EntryAt(undo, now));
      }
    }

    /** `put_node`: saves the node's own account and writes it anew. */
    method PutNode(u: User)
      requires Shaped() && users > 0
      modifies this`file, this`users, this`changed, this`undo
      ensures Shaped() && file == Written(old(file), 0, u) && users == old(users)
      ensures EntryAt(undo, now) == map[0 := At(old(file), 0)] + old(EntryAt(undo, now))
      ensures forall t :: t != now ==> EntryAt(undo, t) == old(EntryAt(undo, t))
      ensures old(Recorded()) && u.msid > 0 ==> Recorded()
    {
      hide Kept, Marked, Chain, Matches, Written, Saves, Writes, Covers;
      var saved := map[0 := At(file, 0)];
      SaveUndo(saved, 0);
      assert 0 in saved;
      PutUser(u, 0);
    }

    /** The end of a block, with `clear_undo`. */
    method NextBlock()
      requires Shaped()
      modifies this
      ensures Shaped() && now == old(now) + blocksec && file == old(file) && users == old(users) && undo == old(undo)
      ensures start == old(start)[now := file]
      ensures old(Recorded()) ==> Recorded()
    {
      hide Kept, Marked, At, Chain, Matches;
      if Recorded() {
        ChainNext(blocksec, first, now, undo, start, file);
      }
      start := start[now + blocksec := file];
      now := now + blocksec;
      changed := Cleared(changed);
      KeptStart(file);
      assert EntryAt(undo, now) == map[];
    }

    /**
     * `message::get_user`: the account as it was at the start of the block that contains `when`, from the undo files
     * up to `path`. About an account that existed then the answer is right exactly when it was saved up to `path` or
     * is what it was, which always holds for the current block; about any other exactly when it does not exist now.
     */
    method GetUser(user: nat, when: nat, path: nat, u0: User) returns (ok: bool, u: User, ghost from: nat)
      requires Shaped() && Recorded() && path <= now
      requires first <= when < now + blocksec
      ensures from % blocksec == 0 && from <= when < from + blocksec && from in start
      ensures ok <==> u.msid > 0
      ensures ok <==> if user < |file| then Exists(file, user) else u0.msid > 0
      ensures Right(start[from], user, ok, u) <==>
        if Exists(start[from], user)
        then Saved(undo, blocksec, from, path, user) || At(file, user) == At(start[from], user)
        else if user < |file| then !Exists(file, user) else u0.msid == 0
      ensures path == now && Exists(start[from], user) ==> Right(start[from], user, ok, u)
      ensures (forall t :: user !in EntryAt(undo, t)) ==> u == if user < |file| then At(file, user) else u0
    {
      hide Kept, Marked, At, Chain, Matches, Exists, Right, Saved;
      var block := when - when % blocksec;
      Floor(when, blocksec);
      ChainPositive(blocksec, first, now, undo, start);
      NextMultiple(block, now, blocksec);
      NextMultiple(first, block, blocksec);
      from := block;
      ok, u := ReadAsOf(file, undo, block, blocksec, path, user, u0, first, now, start);
    }
  }

  /** The answer a read should give about accounts that were `begin`. */
  ghost predicate Right(begin: seq<User>, user: nat, ok: bool, u: User) {
    if Exists(begin, user) then ok && u == At(begin, user) else !ok
  }

  lemma RightIs(begin: seq<User>, user: nat, ok: bool, u: User)
    ensures Right(begin, user, ok, u) <==> if Exists(begin, user) then ok && u == At(begin, user) else !ok
  {
    hide Exists;
  }

  /** An account created one block later is reported, with its later state, as of the block before. */
  method ReadTooEarly(u: User, blocksec: nat) returns (ok: bool, r: User, ghost begin: seq<User>)
    requires u.msid > 0 && blocksec > 0
    ensures begin == [] && ok && r == u && !Right(begin, 0, ok, r)
  {
    hide Kept, Marked, Chain, Matches, Writes, Saves, Covers;
    var changed := Cleared([0]);
    Unmarked(changed);
    var bank := new Bank(blocksec, 0, [], changed);
    begin := [];
    bank.NextBlock();
    bank.PutUser(u, 0);
    ghost var from;
    ok, r, from := bank.GetUser(0, 0, bank.now, HOLE);
  }

  lemma Unmarked(changed: seq<u64>)
    requires Matches(changed, map[])
    ensures forall uid: nat :: !Marked(changed, uid)
  {
    hide Marked;
  }

  /**
   * The current account, or its first entry in the undo files from `from` on. A read past the end of the
   * account file leaves what the caller had, `u0`.
   */
  method ReadAsOf(file: seq<User>, undo: map<nat, map<nat, User>>, from: nat, step: nat, path: nat, user: nat, u0: User,
                  ghost first: nat, ghost now: nat, ghost start: map<nat, seq<User>>) returns (ok: bool, u: User)
    requires Chain(step, first, now, undo, start) && now in start && Kept(start[now], EntryAt(undo, now), file)
    requires step > 0 && from % step == 0 && first <= from <= now && path <= now
    ensures from in start
    ensures ok <==> u.msid > 0
    ensures ok <==> if user < |file| then Exists(file, user) else u0.msid > 0
    ensures Right(start[from], user, ok, u) <==>
      if Exists(start[from], user) then Saved(undo, step, from, path, user) || At(file, user) == At(start[from], user)
      else if user < |file| then !Exists(file, user) else u0.msid == 0
    ensures path == now && Exists(start[from], user) ==> Right(start[from], user, ok, u)
    ensures (forall t :: user !in EntryAt(undo, t)) ==> u == if user < |file| then At(file, user) else u0
  {
    hide *;
    ChainPositive(step, first, now, undo, start);
    ChainHas(step, first, now, undo, start, from);
    ghost var was := At(start[from], user);
    ExistsIs(start[from], user);
    ExistsIs(file, user);
    u := if user < |file| then file[user] else u0;
    AtIs(file, user);
    var block := from;
    NoneSaved(undo, step, from, from, user);
    while block <= path
      invariant from <= block && block % step == 0
      invariant u == if user < |file| then At(file, user) else u0
      invariant Exists(start[from], user) ==> !SavedBefore(undo, step, from, block, user)
      invariant Exists(start[from], user) ==>
        if block <= now then block in start && At(start[block], user) == was else At(file, user) == was
    {
      ChainHas(step, first, now, undo, start, block);
      if Exists(start[from], user) {
        ExistsIs(start[block], user);
        StepFrom(step, first, now, undo, start, file, block, user);
      }
      EntryIs(undo, block, user);
      var ou := ReadUndo(undo, block, user);
      if ou.msid > 0 {
        u := ou;
        Persists(step, first, now, undo, start, file, block, user);
        SavedAt(undo, step, from, path, block, user);
        break;
      }
      NextMultiple(block, now, step);
      NextMultiple(block, block, step);
      if Exists(start[from], user) {
        SavedStep(undo, step, from, block, user);
      }
      block := block + step;
    }
    ok := u.msid > 0;
    SavedUpTo(undo, step, from, path, block, user);
    RightIs(start[from], user, ok, u);
    Persists(step, first, now, undo, start, file, from, user);
  }

  /** The account has an entry in the undo file of a block from `from` up to `path`. */
  ghost predicate Saved(undo: map<nat, map<nat, User>>, step: nat, from: nat, path: nat, user: nat)
    requires step > 0
  {
    exists t :: from <= t <= path && t % step == 0 && user in EntryAt(undo, t)
  }

  ghost predicate SavedBefore(undo: map<nat, map<nat, User>>, step: nat, from: nat, block: nat, user: nat)
    requires step > 0
  {
    exists t :: from <= t < block && t % step == 0 && user in EntryAt(undo, t)
  }

  lemma NoneSaved(undo: map<nat, map<nat, User>>, step: nat, from: nat, block: nat, user: nat)
    requires step > 0 && block <= from
    ensures !SavedBefore(undo, step, from, block, user)
  {
  }

  lemma SavedAt(undo: map<nat, map<nat, User>>, step: nat, from: nat, path: nat, block: nat, user: nat)
    requires step > 0 && from <= block <= path && block % step == 0 && user in EntryAt(undo, block)
    ensures Saved(undo, step, from, path, user)
  {
  }

  lemma SavedStep(undo: map<nat, map<nat, User>>, step: nat, from: nat, block: nat, user: nat)
    requires step > 0 && block % step == 0 && user !in EntryAt(undo, block)
    ensures SavedBefore(undo, step, from, block + step, user) ==> SavedBefore(undo, step, from, block, user)
  {
    hide EntryAt;
    if SavedBefore(undo, step, from, block + step, user) {
      var t :| from <= t < block + step && t % step == 0 && user in EntryAt(undo, t);
      NextMultiple(t, block, step);
    }
  }

  lemma SavedUpTo(undo: map<nat, map<nat, User>>, step: nat, from: nat, path: nat, block: nat, user: nat)
    requires step > 0
    ensures block > path && !SavedBefore(undo, step, from, block, user) ==> !Saved(undo, step, from, path, user)
  {
    hide EntryAt;
    if t :| from <= t <= path && t % step == 0 && user in EntryAt(undo, t) {
      assert block > path ==> SavedBefore(undo, step, from, block, user);
    }
  }

  /** What the undo file of a block reads as: nothing where the file or the entry is missing. */
  function ReadUndo(undo: map<nat, map<nat, User>>, block: nat, user: nat): User {
    if block !in undo then HOLE else if user in undo[block] then undo[block][user] else HOLE
  }

  lemma EntryIs(undo: map<nat, map<nat, User>>, block: nat, user: nat)
    ensures ReadUndo(undo, block, user) == if user in EntryAt(undo, block) then EntryAt(undo, block)[user] else HOLE
    ensures HOLE.msid == 0
  {
  }

  lemma ExistsIs(file: seq<User>, uid: nat)
    ensures Exists(file, uid) <==> At(file, uid).msid > 0
  {
  }

  lemma MatchesResized(changed: seq<u64>, marks: seq<u64>, entry: map<nat, User>)
    requires Matches(changed, entry) && forall v: nat :: Marked(marks, v) <==> Marked(changed, v)
    ensures Matches(marks, entry)
  {
    hide Marked;
  }

  function Cleared(changed: seq<u64>): (r: seq<u64>)
    ensures |r| == |changed| && Matches(r, map[])
  {
    var r := seq(|changed|, i => 0);
    NoMarks(r);
    r
  }

  lemma NoMarks(r: seq<u64>)
    requires forall i :: 0 <= i < |r| ==> r[i] == 0
    ensures Matches(r, map[])
  {
    hide And, Pow2;
    forall v: nat ensures !Marked(r, v) {
      if v / 64 < |r| {
        NoBit(v % 64);
      }
    }
  }

  lemma AtIs(file: seq<User>, uid: nat)
    ensures At(file, uid) == (if uid < |file| then file[uid] else HOLE) && HOLE.msid == 0
  {
  }

  lemma ChainPositive(step: nat, first: nat, now: nat, undo: map<nat, map<nat, User>>, start: map<nat, seq<User>>)
    requires Chain(step, first, now, undo, start)
    ensures step > 0 && now % step == 0 && first % step == 0 && first <= now && now in start
  {
    hide Kept;
  }

  lemma ChainHas(step: nat, first: nat, now: nat, undo: map<nat, map<nat, User>>, start: map<nat, seq<User>>, t: nat)
    requires Chain(step, first, now, undo, start) && first <= t <= now && t % step == 0
    ensures t in start
  {
    hide Kept;
  }

  lemma Floor(n: nat, step: nat)
    requires step > 0
    ensures (n - n % step) % step == 0 && 0 <= n - n % step <= n < n - n % step + step
  {
    Arith.DivUnique(n - n % step, step, n / step, 0);
  }

  /** The accounts after block `t`: at the start of the next one, or now. */
  ghost function After(step: nat, now: nat, start: map<nat, seq<User>>, file: seq<User>, t: nat): seq<User> {
    if t < now && t + step in start then start[t + step] else file
  }

  lemma {:induction false} KeptAfter(step: nat, first: nat, now: nat, undo: map<nat, map<nat, User>>,
                                     start: map<nat, seq<User>>, file: seq<User>, t: nat)
    requires Chain(step, first, now, undo, start) && first <= t <= now && t % step == 0
    requires now in start && Kept(start[now], EntryAt(undo, now), file)
    ensures t in start && Kept(start[t], EntryAt(undo, t), After(step, now, start, file, t))
    ensures t < now ==> t + step in start && t + step <= now && (t + step) % step == 0
  {
    hide Kept;
    NextMultiple(t, now, step);
    NextMultiple(t, t, step);
    if t < now {
      assert Kept(start[t], EntryAt(undo, t), start[t + step]);
    }
  }

  /** An account that existed at the start of block `t`, or has an entry in it, exists now. */
  lemma {:induction false} Persists(step: nat, first: nat, now: nat, undo: map<nat, map<nat, User>>,
                                    start: map<nat, seq<User>>, file: seq<User>, t: nat, uid: nat)
    requires Chain(step, first, now, undo, start) && first <= t <= now && t % step == 0
    requires now in start && Kept(start[now], EntryAt(undo, now), file)
    ensures t in start
    ensures Exists(start[t], uid) || (uid in EntryAt(undo, t) && EntryAt(undo, t)[uid].msid > 0) ==> Exists(file, uid)
    decreases now - t
  {
    KeptAfter(step, first, now, undo, start, file, t);
    KeptExists(start[t], EntryAt(undo, t), After(step, now, start, file, t), uid);
    hide Kept, Chain, At;
    if t < now {
      ChainPositive(step, first, now, undo, start);
      Persists(step, first, now, undo, start, file, t + step, uid);
    }
  }

  lemma KeptExists(start: seq<User>, entry: map<nat, User>, file: seq<User>, uid: nat)
    requires Kept(start, entry, file)
    ensures Exists(start, uid) ==> Exists(file, uid)
    ensures uid in entry && entry[uid].msid > 0 ==> Exists(file, uid)
    ensures Exists(start, uid) && uid !in entry ==> At(file, uid) == At(start, uid)
    ensures Exists(start, uid) && uid in entry ==> entry[uid] == At(start, uid)
  {
    hide At;
    if Exists(start, uid) {
      assert KeptAt(start, entry, file, uid);
    }
  }

  /** One block: an account that existed has its start value in the undo file, or keeps it to the next block. */
  lemma {:induction false} StepFrom(step: nat, first: nat, now: nat, undo: map<nat, map<nat, User>>,
                                    start: map<nat, seq<User>>, file: seq<User>, t: nat, uid: nat)
    requires Chain(step, first, now, undo, start) && first <= t <= now && t % step == 0
    requires now in start && Kept(start[now], EntryAt(undo, now), file) && t in start && Exists(start[t], uid)
    ensures uid in EntryAt(undo, t) ==> EntryAt(undo, t)[uid] == At(start[t], uid)
    ensures uid !in EntryAt(undo, t) && t < now ==> t + step in start && At(start[t + step], uid) == At(start[t], uid)
    ensures uid !in EntryAt(undo, t) && t == now ==> At(file, uid) == At(start[t], uid)
  {
    KeptAfter(step, first, now, undo, start, file, t);
    KeptExists(start[t], EntryAt(undo, t), After(step, now, start, file, t), uid);
    hide Kept, Chain, At;
  }
}
