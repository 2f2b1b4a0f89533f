/** `hashtree::hashpath`: the positions of an inclusion path, found by arithmetic alone. */
module HashPath {
  import opened Binary
  import opened MerkleLog
  import opened Popcount

  type u32 = x: int | 0 <= x < 0x1_0000_0000

  /**
   * Position, if there is one, of the sibling of entry `h` of level `t` over `m` elements.
   * The right neighbour of the last complete entry covers the incomplete edge of the level.
   */
  function Sibling(m: nat, h: nat, t: nat): seq<int> {
    if h % 2 == 1 then [Pos(t, h - 1)]
    else if h + 1 < Shr(m, t) then [Pos(t, h + 1)]
    else if h + 1 == Shr(m, t) && LowPop(m, t) > 0 then [EdgePos(m, t)]
    else []
  }

  /** Positions of all siblings from entry `h` of level `t` up to the root. */
  function PathPositions(m: nat, h: nat, t: nat): seq<int>
    requires m > 0
    decreases Shr(m - 1, t)
  {
    if Shr(m - 1, t) == 0 then []
    else
      ShrStep(m - 1, t);
      Sibling(m, h, t) + PathPositions(m, h / 2, t + 1)
  }

  lemma {:induction false} PosSteps(t: nat, h: nat)
    ensures h % 2 == 1 ==> Pos(t, h - 1) == Pos(t, h) - (Pow2(t + 1) - 1)
    ensures h % 2 == 1 ==> Pos(t + 1, h / 2) == Pos(t, h) + 1
    ensures h % 2 == 0 ==> Pos(t, h + 1) == Pos(t, h) + Pow2(t + 1) - 1
    ensures h % 2 == 0 ==> Pos(t + 1, h / 2) == Pos(t, h + 1) + 1
  {
    var p, g := Pow2(t + 1), h / 2;
    assert (g + 1) * (2 * p) == (2 * g + 2) * p;
    if h % 2 == 1 {
      assert (h + 1) * p == h * p + p;
      assert (h - 1) / 2 == g;
    } else {
      assert (h + 2) * p == (h + 1) * p + p;
      assert (h + 1) / 2 == g;
    }
  }

  /** A node is complete exactly when its position lies inside the log. */
  lemma {:induction false} CompleteIff(m: nat, t: nat, h: nat)
    ensures h < Shr(m, t) <==> Pos(t, h) < 2 * m - Pop(m)
    ensures Pos(t, h) >= 0
  {
    ShrIsDiv(m, t);
    PosNonnegative(t, h);
    if h < Shr(m, t) {
      MulLe(h + 1, Shr(m, t), Pow2(t));
      PosInside(m, t, h);
    } else {
      MulLe(Shr(m, t) + 1, h + 1, Pow2(t));
      PosBeyond(m, t, h);
    }
  }

  lemma {:induction false} PosNonnegative(t: nat, h: nat)
    ensures Pos(t, h) >= 0
  {
    PosInBatch(t, h, (h + 1) * Pow2(t));
  }

  lemma {:induction false} PosInside(m: nat, t: nat, h: nat)
    requires (h + 1) * Pow2(t) <= m
    ensures Pos(t, h) < 2 * m - Pop(m)
  {
    PosLaw(m, t, h);
    LogSizes(m);
  }

  /** The loop runs exactly as long as the level has more than one entry. */
  lemma {:induction false} GuardIff(m: nat, t: nat)
    requires m > 0
    ensures Shr(m - 1, t) > 0 <==> Pow2(t + 1) - 1 < 2 * m - Pop(m)
  {
    hide *;
    PopPow2(t);
    Pow2Step(t);
    if m <= Pow2(t) {
      ShrZero(m - 1, t);
      if m < Pow2(t) {
        DoubleLessPop(m, Pow2(t));
      }
    } else {
      ShrIsDiv(m - 1, t);
      DoubleLessPop(Pow2(t), m);
    }
  }

  /** Nothing overflows 32 bits while the level has an entry over an element below 2^31. */
  lemma {:induction false} PosFits(k: nat, t: nat, h: nat, m: nat)
    requires t <= k && 0 < m <= Pow2(k) && h <= Shr(m - 1, t)
    ensures (h + 1) * Pow2(t) <= Pow2(k)
    decreases t
  {
    if t == 0 {
      assert Pow2(t) == 1 && Shr(m - 1, t) == m - 1;
      hide *;
    } else {
      assert Pow2(k) == 2 * Pow2(k - 1) && Pow2(t) == 2 * Pow2(t - 1) && Shr(m - 1, t) == Shr((m - 1) / 2, t - 1);
      hide *;
      assert (m - 1) / 2 < Pow2(k - 1);
      PosFits(k - 1, t - 1, h, (m - 1) / 2 + 1);
      DoubleProduct(h + 1, Pow2(t - 1));
    }
  }

  lemma DoubleProduct(a: int, b: int)
    ensures a * (2 * b) == 2 * (a * b)
  {
  }

  /** Position of the edge node while the path has not met the edge, as `posfin` keeps it. */
  function EdgeCursor(m: nat, t: nat): int {
    if LowPop(m, t) == 0 then 0 else EdgePos(m, t)
  }

  lemma {:induction false} EdgeCursorStep(m: nat, t: nat)
    requires m > 1 && Shr(m, t) > 0
    ensures LowPop(m, t) > 0 ==> EdgePos(m, t) > 0
    ensures 0 <= EdgeCursor(m, t) < 2 * m - 1
    ensures EdgeCursor(m, t + 1) ==
      if Shr(m, t) % 2 == 0 then EdgeCursor(m, t)
      else if EdgeCursor(m, t) == 0 then 2 * m - Pop(m) - 1
      else EdgeCursor(m, t) + 1
  {
    assert Pop(1) == 1;
    hide Shr, Pop, LowPop;
    LowPopStep(m, t);
    PopSplit(m, t);
    DoubleLessPop(1, m);
  }

  /** Positions stay below 2^32 for trees of fewer than 2^31 elements. */
  lemma PosBound(m: nat, h: nat, t: nat)
    requires 0 < m <= Pow2(31) && h <= Shr(m - 1, t) && Shr(m - 1, t) > 0
    ensures Pow2(t + 2) <= 0x1_0000_0000
    ensures Pos(t + 1, h / 2) + 2 <= 0x1_0000_0000
  {
    hide *;
    Pow2Values();
    if t >= 31 {
      Pow2Monotone(31, t);
      ShrZero(m - 1, t);
    }
    ShrStep(m - 1, t);
    PosFits(31, t + 1, h / 2, m);
    PosIs(t + 1, h / 2, (h / 2 + 1) * Pow2(t + 1));
    Pow2Monotone(t + 1, 31);
    Pow2Step(t + 1);
  }

  /** What `hashpath` knows of the node it stands at, entry `h` of level `t`. */
  ghost predicate AtNode(m: nat, h: nat, t: nat, hashmax: int, posfin: int)
    requires m > 0
  {
    && h <= Shr(m - 1, t)
    && (hashmax != 0 ==> hashmax == Shr(m, t) && h < hashmax && posfin == EdgeCursor(m, t))
    && (hashmax == 0 ==> posfin == 0 && h >= Shr(m, t))
  }

  lemma {:induction false} LevelSizes(m: nat, t: nat)
    requires m > 0
    ensures Shr(m - 1, t) == if LowPop(m, t) > 0 then Shr(m, t) else Shr(m, t) - 1
  {
    ShrPred(m, t);
  }

  lemma {:induction false} PathStep(m: nat, h: nat, t: nat)
    requires m > 0 && Shr(m - 1, t) > 0
    ensures PathPositions(m, h, t) == Sibling(m, h, t) + PathPositions(m, h / 2, t + 1)
  {
    hide Sibling;
  }

  /** One turn of the loop finds the sibling and moves to the parent. */
  lemma {:induction false} Turn(m: nat, h: nat, t: nat, hashmax: int, posfin: int)
    requires m > 0 && Shr(m - 1, t) > 0
    requires AtNode(m, h, t, hashmax, posfin)
    ensures var posend, diff := 2 * m - Pop(m), Pow2(t + 1) - 1;
      var posadd := if h % 2 == 1 then Pos(t, h) - diff else Pos(t, h) + diff;
      var max' := if posadd < posend then hashmax else 0;
      var fin' := if posadd < posend then posfin else 0;
      && posadd >= 0
      && Pos(t + 1, h / 2) == (if h % 2 == 1 then Pos(t, h) else posadd) + 1
      && Sibling(m, h, t) == (if posadd < posend then [posadd] else if posfin > 0 then [posfin] else [])
      && AtNode(m, h / 2, t + 1, max' / 2,
           if max' % 2 == 0 then fin' else if fin' == 0 then posend - 1 else fin' + 1)
    ensures posfin < 2 * m - 1
    ensures m <= Pow2(31) ==> Pow2(t + 2) <= 0x1_0000_0000 && Pos(t + 1, h / 2) + 2 <= 0x1_0000_0000
    ensures Pow2(t + 2) - 1 == 2 * (Pow2(t + 1) - 1) + 1
    ensures PathPositions(m, h, t) == Sibling(m, h, t) + PathPositions(m, h / 2, t + 1)
    ensures Shr(m - 1, t + 1) < Shr(m - 1, t)
  {
    hide Shr, Pop, LowPop, Pow2, Pos, EdgePos, PathPositions;
    PathStep(m, h, t);
    if m <= Pow2(31) {
      PosBound(m, h, t);
    }
    if m == 1 {
      ShrZero(0, t);
    }
    Pow2Step(t + 1);
    ShrStep(m, t);
    ShrStep(m - 1, t);
    LevelSizes(m, t);
    LevelSizes(m, t + 1);
    LowPopStep(m, t);
    PosSteps(t, h);
    if h % 2 == 1 {
      CompleteIff(m, t, h - 1);
    } else {
      CompleteIff(m, t, h + 1);
    }
    if Shr(m, t) > 0 {
      EdgeCursorStep(m, t);
    }
  }

  lemma {:induction false} Start(m: nat, h: nat)
    requires h < m < 0x8000_0000
    ensures m <= Pow2(31)
    ensures Pos(0, h) == 2 * h - Pop(h) && 0 <= Pop(h) <= h && 0 <= Pop(m) <= m
    ensures AtNode(m, h, 0, m, 0)
    ensures Pow2(1) == 2 && (Shr(m - 1, 0) > 0 <==> 1 < 2 * m - Pop(m))
  {
    assert Shr(m, 0) == m && Shr(m - 1, 0) == m - 1 && LowPop(m, 0) == 0;
    assert Pow2(1) == 2;
    hide Shr, Pop, LowPop, Pow2;
    Pow2Values();
    PopBound(h);
    PopBound(m);
    GuardIff(m, 0);
  }

  /** `hashpath` returns the positions of the siblings, in order, for every size and index. */
  method HashPath(hashnum0: u32, hashmax0: u32) returns (add: seq<u32>)
    requires hashnum0 < hashmax0 < 0x8000_0000
    ensures add == PathPositions(hashmax0, hashnum0, 0)
  {
    hide *;
    var hashnum: u32, hashmax: u32 := hashnum0, hashmax0;
    ghost var m: nat := hashmax0;
    Start(m, hashnum);
    var ones := Bits(hashnum);
    var posnum: u32 := 2 * hashnum - ones;
    ones := Bits(hashmax);
    var posend: u32 := 2 * hashmax - ones;
    var posfin: u32, diff: u32 := 0, 1;
    add := [];
    ghost var t: nat := 0;
    while diff < posend
      invariant AtNode(m, hashnum, t, hashmax, posfin)
      invariant posnum == Pos(t, hashnum) && diff == Pow2(t + 1) - 1
      invariant add + PathPositions(m, hashnum, t) == PathPositions(m, hashnum0, 0)
      invariant Shr(m - 1, t) > 0 <==> diff < posend
      decreases Shr(m - 1, t)
    {
      Turn(m, hashnum, t, hashmax, posfin);
      var posadd: u32;
      if hashnum % 2 == 1 {
        posadd := posnum - diff;
        posnum := posnum + 1;
      } else {
        posadd := posnum + diff;
        posnum := posadd + 1;
      }
      if posadd < posend {
        add := add + [posadd];
      } else {
        if posfin > 0 {
          add := add + [posfin];
        }
        posfin := 0;
        hashmax := 0;
      }
      if hashmax % 2 == 1 {
        if posfin == 0 {
          posfin := posend - 1;
        } else {
          posfin := posfin + 1;
        }
      }
      hashmax := hashmax / 2;
      hashnum := hashnum / 2;
      diff := 2 * diff + 1;
      t := t + 1;
      GuardIff(m, t);
    }
    assert PathPositions(m, hashnum, t) == [] by { PathEnds(m, hashnum, t); }
  }

  lemma {:induction false} PathEnds(m: nat, h: nat, t: nat)
    requires m > 0 && Shr(m - 1, t) == 0
    ensures PathPositions(m, h, t) == []
  {
  }
}
