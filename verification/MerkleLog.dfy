/**
 * The order in which `hashtree` logs the nodes of its tree, and the place of every node in it.
 * A node is named by its level and its index there; what it holds plays no part here.
 */
module MerkleLog {
  import opened Binary

  datatype Id = Id(level: nat, index: nat)

  /** Nodes completed above entry `x` of level `t` when that entry is the newest one. */
  function Climb(x: nat, t: nat): seq<Id>
    decreases x
  {
    if x % 2 == 0 then [] else [Id(t + 1, x / 2)] + Climb(x / 2, t + 1)
  }

  /** Ancestors of the last entry `x` of level `t` that hash two nodes. */
  function Ancestors(x: nat, t: nat): seq<Id>
    decreases x
  {
    if x == 0 then []
    else (if x % 2 == 0 then [] else [Id(t + 1, x / 2)]) + Ancestors(x / 2, t + 1)
  }

  /** Inner nodes completed by the first `n` elements, in the order they are completed. */
  function Inner(n: nat): seq<Id> {
    if n == 0 then [] else Inner(n - 1) + Climb(n - 1, 0)
  }

  /** The same with the elements themselves logged. */
  function Full(n: nat): seq<Id> {
    if n == 0 then [] else Full(n - 1) + [Id(0, n - 1)] + Climb(n - 1, 0)
  }

  /** The log of all inner nodes over `n` elements: the root comes last. */
  function InnerLog(n: nat): seq<Id>
    requires n > 0
  {
    Inner(n - 1) + Ancestors(n - 1, 0)
  }

  function FullLog(n: nat): seq<Id>
    requires n > 0
  {
    Full(n - 1) + [Id(0, n - 1)] + Ancestors(n - 1, 0)
  }

  // ---------- sizes ----------

  lemma {:induction false} ClimbSize(x: nat, t: nat)
    ensures |Climb(x, t)| == Pop(x) + 1 - Pop(x + 1)
    decreases x
  {
    if x % 2 == 1 {
      ClimbSize(x / 2, t + 1);
      assert (x + 1) / 2 == x / 2 + 1;
    } else {
      assert (x + 1) / 2 == x / 2;
    }
  }

  lemma {:induction false} AncestorsSize(x: nat, t: nat)
    ensures |Ancestors(x, t)| == Pop(x)
    decreases x
  {
    if x > 0 {
      AncestorsSize(x / 2, t + 1);
    }
  }

  lemma {:induction false} LogSizes(n: nat)
    ensures |Inner(n)| == n - Pop(n)
    ensures |Full(n)| == 2 * n - Pop(n)
  {
    if n > 0 {
      LogSizes(n - 1);
      ClimbSize(n - 1, 0);
    }
  }

  lemma {:induction false} FullPrefix(m: nat, n: nat)
    requires m <= n
    ensures Full(m) <= Full(n)
  {
    if m < n {
      FullPrefix(m, n - 1);
    }
  }

  lemma {:induction false} ClimbIsPrefix(x: nat, t: nat)
    ensures Climb(x, t) <= Ancestors(x, t)
    decreases x
  {
    if x % 2 == 1 {
      ClimbIsPrefix(x / 2, t + 1);
    }
  }

  // ---------- positions ----------

  /** Position in the full log of entry `h` of level `t`. */
  function Pos(t: nat, h: nat): int {
    (h + 1) * Pow2(t + 1) - Pop(h) - 2
  }

  /** Position of the node over the incomplete right edge at level `t`, for `m` elements. */
  function EdgePos(m: nat, t: nat): int {
    2 * m - Pop(m) - 2 + LowPop(m, t)
  }

  lemma {:induction false} ClimbEntry(x: nat, u: nat, k: nat, h: nat)
    requires x == (h + 1) * Pow2(k) - 1
    ensures k < |[Id(u, x)] + Climb(x, u)|
    ensures ([Id(u, x)] + Climb(x, u))[k] == Id(u + k, h)
    ensures Pop(x) == Pop(h) + k
    decreases k
  {
    if k > 0 {
      assert x == 2 * ((h + 1) * Pow2(k - 1)) - 1;
      ClimbEntry(x / 2, u + 1, k - 1, h);
      assert Climb(x, u) == [Id(u + 1, x / 2)] + Climb(x / 2, u + 1);
    }
  }

  lemma {:induction false} PosIs(t: nat, h: nat, m: nat)
    requires m == (h + 1) * Pow2(t)
    ensures Pos(t, h) == 2 * m - Pop(h) - 2
  {
    assert (h + 1) * (2 * Pow2(t)) == 2 * ((h + 1) * Pow2(t));
  }

  /** A node enters the log together with the last element below it. */
  lemma {:induction false} PosInBatch(t: nat, h: nat, m: nat)
    requires m == (h + 1) * Pow2(t)
    ensures m > 0 && Pos(t, h) == |Full(m - 1)| + t
    ensures Pos(t, h) < |Full(m)| && Full(m)[Pos(t, h)] == Id(t, h)
  {
    hide *;
    SpanPositive(t, h);
    var x := m - 1;
    ClimbEntry(x, 0, t, h);
    LogSizes(x);
    PosIs(t, h, m);
    FullStep(x);
    EntryBehind(Full(x), [Id(0, x)] + Climb(x, 0), t);
  }

  lemma SpanPositive(t: nat, h: nat)
    ensures (h + 1) * Pow2(t) > 0
  {
    hide Pow2;
    assert (h + 1) * Pow2(t) == h * Pow2(t) + Pow2(t);
  }

  lemma EntryBehind(log: seq<Id>, batch: seq<Id>, t: nat)
    requires t < |batch|
    ensures |log| + t < |log + batch| && (log + batch)[|log| + t] == batch[t]
  {
  }

  /** The position law: a complete node sits where `Pos` says, in every log that has it. */
  lemma {:induction false} PosLaw(n: nat, t: nat, h: nat)
    requires (h + 1) * Pow2(t) <= n
    ensures 0 <= Pos(t, h) < |Full(n)|
    ensures Full(n)[Pos(t, h)] == Id(t, h)
  {
    hide *;
    var m := (h + 1) * Pow2(t);
    PosInBatch(t, h, m);
    FullPrefix(m, n);
  }

  /** An incomplete node would sit at or after the end of the log. */
  lemma {:induction false} PosBeyond(n: nat, t: nat, h: nat)
    requires (h + 1) * Pow2(t) > n
    ensures Pos(t, h) >= 2 * n - Pop(n)
  {
    hide *;
    var m := (h + 1) * Pow2(t);
    PosInBatch(t, h, m);
    FullPrefix(n, m - 1);
    LogSizes(n);
  }

  // ---------- pairs ----------

  function Raise(ids: seq<Id>): (r: seq<Id>)
    ensures |r| == |ids|
  {
    seq(|ids|, i requires 0 <= i < |ids| => Id(ids[i].level + 1, ids[i].index))
  }

  lemma {:induction false} RaiseOne(t: nat, h: nat)
    ensures Raise([Id(t, h)]) == [Id(t + 1, h)] && Raise([]) == []
  {
  }

  lemma {:induction false} RaiseConcat(a: seq<Id>, b: seq<Id>)
    ensures Raise(a + b) == Raise(a) + Raise(b)
  {
  }

  lemma {:induction false} RaiseClimb(x: nat, t: nat)
    ensures Climb(x, t + 1) == Raise(Climb(x, t))
    decreases x
  {
    if x % 2 == 1 {
      RaiseClimb(x / 2, t + 1);
      RaiseConcat([Id(t + 1, x / 2)], Climb(x / 2, t + 1));
    }
  }

  lemma {:induction false} RaiseAncestors(x: nat, t: nat)
    ensures Ancestors(x, t + 1) == Raise(Ancestors(x, t))
    decreases x
  {
    if x > 0 {
      var here := if x % 2 == 0 then [] else [Id(t + 1, x / 2)];
      RaiseAncestors(x / 2, t + 1);
      RaiseConcat(here, Ancestors(x / 2, t + 1));
      assert Ancestors(x, t) == here + Ancestors(x / 2, t + 1);
      assert Ancestors(x, t + 1) == Raise(here) + Ancestors(x / 2, t + 2);
    }
  }

  lemma {:induction false} InnerStep(n: nat)
    ensures Inner(n + 1) == Inner(n) + Climb(n, 0)
  {
  }

  lemma {:induction false} ClimbStep(x: nat, t: nat)
    ensures Climb(2 * x, t) == []
    ensures Climb(2 * x + 1, t) == [Id(t + 1, x)] + Climb(x, t + 1)
  {
    assert (2 * x + 1) / 2 == x;
  }

  lemma {:induction false} AncestorsDef(x: nat, t: nat)
    ensures x == 0 ==> Ancestors(x, t) == []
    ensures x > 0 && x % 2 == 0 ==> Ancestors(x, t) == Ancestors(x / 2, t + 1)
    ensures x % 2 == 1 ==> Ancestors(x, t) == [Id(t + 1, x / 2)] + Ancestors(x / 2, t + 1)
  {
  }

  lemma {:induction false} AncestorsStep(x: nat, t: nat)
    ensures Ancestors(2 * x, t) == Ancestors(x, t + 1)
    ensures Ancestors(2 * x + 1, t) == [Id(t + 1, x)] + Ancestors(x, t + 1)
  {
    hide *;
    AncestorsDef(2 * x, t);
    AncestorsDef(2 * x + 1, t);
    AncestorsDef(x, t + 1);
    assert (2 * x + 1) / 2 == x;
  }

  lemma {:induction false} InnerTwoSteps(x: nat)
    ensures Inner(2 * x + 1) == Inner(2 * x)
    ensures Inner(2 * x + 2) == Inner(2 * x + 1) + ([Id(1, x)] + Climb(x, 1))
  {
    hide *;
    InnerStep(2 * x);
    InnerStep(2 * x + 1);
    ClimbStep(x, 0);
  }

  lemma {:induction false} FullStep(x: nat)
    ensures Full(x + 1) == Full(x) + ([Id(0, x)] + Climb(x, 0))
  {
  }

  /** Every second element completes a pair, and the log of pairs is the log one level up. */
  lemma {:induction false} InnerIsRaised(m: nat)
    ensures Inner(2 * m) == Raise(Full(m)) == Inner(2 * m + 1)
  {
    if m == 0 {
      InnerTwoSteps(0);
    } else {
      InnerIsRaised(m - 1);
      InnerIsRaisedStep(m - 1);
    }
  }

  lemma {:induction false} InnerIsRaisedStep(x: nat)
    requires Inner(2 * x + 1) == Raise(Full(x))
    ensures Inner(2 * x + 2) == Raise(Full(x + 1)) == Inner(2 * x + 3)
  {
    hide *;
    InnerTwoSteps(x);
    InnerTwoSteps(x + 1);
    FullStep(x);
    RaiseOne(0, x);
    RaiseClimb(x, 0);
    RaiseConcat([Id(0, x)], Climb(x, 0));
    RaiseConcat(Full(x), [Id(0, x)] + Climb(x, 0));
  }

  /** The position law for the list of inner nodes that `update` keeps. */
  lemma {:induction false} InnerPosLaw(n: nat, k: nat, j: nat)
    requires k >= 1 && (j + 1) * Pow2(k) <= n
    ensures var p := (j + 1) * Pow2(k) - Pop(j) - 2;
      0 <= p < |Inner(n)| && Inner(n)[p] == Id(k, j)
  {
    Pow2Step(k - 1);
    MulDouble(Pow2(k - 1), j + 1);
    assert Pos(k - 1, j) == (j + 1) * Pow2(k) - Pop(j) - 2;
    hide Pow2, Pop, Full, Inner, Pos;
    PosLaw(n / 2, k - 1, j);
    InnerIsRaised(n / 2);
    assert n == 2 * (n / 2) || n == 2 * (n / 2) + 1;
  }

  /** For an even count the log is the full log of the pairs. */
  lemma {:induction false} EvenLog(m: nat)
    requires m > 0
    ensures InnerLog(2 * m) == Raise(FullLog(m))
  {
    hide Raise, Full, Inner, Climb, Ancestors, Pop;
    var x := m - 1;
    var last, rest := [Id(0, x)], Ancestors(x, 0);
    InnerIsRaised(x);
    RaiseOne(0, x);
    RaiseAncestors(x, 0);
    RaiseConcat(Full(x), last);
    RaiseConcat(Full(x) + last, rest);
    AncestorsStep(x, 0);
  }

  function Without(ids: seq<Id>, at: nat): seq<Id>
    requires at < |ids|
  {
    ids[..at] + ids[at + 1..]
  }

  lemma {:induction false} WithoutMiddle(a: seq<Id>, x: Id, b: seq<Id>)
    ensures (a + [x] + b)[|a|] == x
    ensures Without(a + [x] + b, |a|) == a + b
  {
  }

  /** For an odd count the lone last element is missing from it. */
  lemma {:induction false} OddLog(m: nat)
    ensures var at := 2 * m - Pop(m);
      && 0 <= at < |FullLog(m + 1)| && FullLog(m + 1)[at] == Id(0, m)
      && InnerLog(2 * m + 1) == Raise(Without(FullLog(m + 1), at))
  {
    hide Raise, Full, Inner, Climb, Ancestors, Pop;
    LogSizes(m);
    WithoutMiddle(Full(m), Id(0, m), Ancestors(m, 0));
    OddLogIsRaised(m);
  }

  lemma {:induction false} OddLogIsRaised(m: nat)
    ensures InnerLog(2 * m + 1) == Raise(Full(m) + Ancestors(m, 0))
  {
    hide Raise, Full, Inner, Climb, Ancestors, Pop;
    RaiseConcat(Full(m), Ancestors(m, 0));
    InnerIsRaised(m);
    RaiseAncestors(m, 0);
    AncestorsStep(m, 0);
  }

  lemma {:induction false} FullLogFacts(m: nat)
    requires m > 0
    ensures Full(m) <= FullLog(m)
    ensures |FullLog(m)| == 2 * m - 1
    ensures 0 <= 2 * m - 2 - Pop(m - 1) <= |FullLog(m)|
    ensures FullLog(m)[2 * m - 2 - Pop(m - 1)..] == [Id(0, m - 1)] + Ancestors(m - 1, 0)
  {
    hide Full, Climb, Ancestors, Pop;
    LogSizes(m - 1);
    PopBound(m - 1);
    AncestorsSize(m - 1, 0);
    FullStep(m - 1);
    ClimbIsPrefix(m - 1, 0);
  }
}
