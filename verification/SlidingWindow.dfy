/** `contract256_slidingwindow_modm`: odd signed digits with runs of zeros between them. */
module SlidingWindow {
  import opened Binary
  import opened Arith
  import opened Digits
  import opened Limbs
  import opened Expansion

  ghost predicate Bits(q: seq<int>, from: nat) {
    forall i :: from <= i < |q| ==> q[i] == 0 || q[i] == 1
  }

  ghost predicate AllOnes(q: seq<int>, from: nat) {
    forall i :: from <= i < |q| ==> q[i] == 1
  }

  lemma {:induction false} BitUpdate(q: seq<int>, i: nat, v: int)
    requires i < |q|
    ensures Weigh(2, q[i := v]) == Weigh(2, q) + Pow2(i) * (v - q[i])
  {
    hide *;
    WeighUpdate(2, q, i, v);
    PowerOfTwo(i);
  }

  // ---------- the carry ----------

  /** Adds one at position `from`: the run of ones there is cleared and the next zero set. */
  method Carry(r: array<Schar>, from: nat)
    requires r.Length == 256 && from < 256 && Bits(r[..], from)
    modifies r
    ensures r[..from] == old(r[..from]) && Bits(r[..], from)
    ensures Weigh(2, r[..]) == old(Weigh(2, r[..])) + Pow2(from) - (if old(AllOnes(r[..], from)) then Pow2(256) else 0)
    ensures old(r[from]) == 1 ==> r[from] == 0
  {
    hide Weigh, Pow2;
    ghost var q := r[..];
    var k := from;
    while k < 256
      invariant from <= k <= 256
      invariant r[..from] == q[..from] && r[k..] == q[k..]
      invariant forall i :: from <= i < k ==> q[i] == 1 && r[i] == 0
      invariant Weigh(2, r[..]) == Weigh(2, q) + Pow2(from) - Pow2(k)
    {
      ghost var p := r[..];
      assert p[k] == q[k..][0] == q[k];
      if r[k] == 0 {
        BitUpdate(p, k, 1);
        r[k] := 1;
        assert r[..] == p[k := 1];
        return;
      }
      BitUpdate(p, k, 0);
      Pow2Step(k);
      r[k] := 0;
      assert r[..] == p[k := 0];
      k := k + 1;
    }
  }

  // ---------- one window ----------

  /**
   * Inside the window that starts at `j`, with the offsets below `b` folded into the digit: the value
   * is kept and the offsets are zero.
   */
  ghost predicate Open(q: seq<int>, j: nat, b: nat, m: nat, s: int) {
    && |q| == 256 && 1 <= b && j + b <= 256
    && Weigh(2, q) == s
    && Bits(q, j + b) && (forall i :: j < i < j + b ==> q[i] == 0)
    && q[j] % 2 != 0 && 0 <= q[j] + m && q[j] <= m && 0 < q[j] + Pow2(b) && q[j] < Pow2(b)
  }

  /** The value, read around the open window. */
  lemma {:induction false} OpenValue(q: seq<int>, j: nat, b: nat)
    requires |q| == 256 && 1 <= b && j + b <= 256 && forall i :: j < i < j + b ==> q[i] == 0
    ensures Weigh(2, q) == Weigh(2, q[..j]) + Pow2(j) * q[j] + Pow2(j + b) * Weigh(2, q[j + b..])
  {
    hide *;
    var z := q[j + 1..j + b];
    WeighTake(2, q, j);
    WeighZeros(2, z);
    WeighConcat(2, z, q[j + b..]);
    WeighConcat(2, q[..j + 1], q[j + 1..]);
    assert q[j + 1..] == z + q[j + b..] && q == q[..j + 1] + q[j + 1..];
    PowerOfTwo(j);
    PowerOfTwo(j + 1);
    PowerOfTwo(b - 1);
    Pow2Add(j + 1, b - 1);
    MulAssoc(Pow2(j + 1), Pow2(b - 1), Weigh(2, q[j + b..]));
  }

  lemma MulAssoc(a: int, b: int, c: int)
    ensures a * (b * c) == (a * b) * c
  {
  }

  lemma {:induction false} OnesAbove(q: seq<int>, t: nat)
    requires t <= |q| == 256 && AllOnes(q, t)
    ensures Pow2(t) * Weigh(2, q[t..]) == Pow2(256) - Pow2(t)
  {
    hide Weigh, Pow2;
    WeighOnes(q[t..]);
    Pow2Add(t, 256 - t);
    Factored(Pow2(t), Pow2(256 - t), 1);
  }

  /** A bit is taken away only from a positive digit. */
  lemma SubtractsFromPositive(d: int, e: int, m: int)
    requires e >= 0 && d + e > m && d - e + m >= 0
    ensures d > 0
  {
  }

  /** The carry of a subtraction meets a zero before the end, for every scalar up to 2^255. */
  lemma {:induction false} CarryLands(q: seq<int>, j: nat, b: nat, m: nat, s: int)
    requires Open(q, j, b, m, s) && j + b < 256 && q[j] > 0
    requires s <= Pow2(255) && Weigh(2, q[..j]) + Pow2(j) > 0
    ensures !AllOnes(q, j + b)
  {
    hide Weigh, Pow2, AllOnes;
    if AllOnes(q, j + b) {
      OpenValue(q, j, b);
      OnesAbove(q, j + b);
      Pow2Monotone(j + b, 255);
      Pow2Step(255);
      MulGap(Pow2(j), q[j], 0);
    }
  }

  lemma OddKept(d: int, k: int)
    requires d % 2 != 0
    ensures (d + 2 * k) % 2 != 0 && (d - 2 * k) % 2 != 0
  {
  }

  /** The new digit, once the bit `e` at offset `b` is folded in with either sign. */
  lemma {:induction false} DigitKept(q: seq<int>, j: nat, b: nat, m: nat, s: int, e: int)
    requires Open(q, j, b, m, s) && (e == 0 || e == 1)
    ensures (q[j] + Pow2(b) * e) % 2 != 0 && (q[j] - Pow2(b) * e) % 2 != 0
    ensures 0 < q[j] + Pow2(b) * e + Pow2(b + 1) && q[j] + Pow2(b) * e < Pow2(b + 1)
    ensures 0 < q[j] - Pow2(b) * e + Pow2(b + 1) && q[j] - Pow2(b) * e < Pow2(b + 1)
  {
    hide Weigh, Bits, Pow2;
    Pow2Step(b);
    Pow2Step(b - 1);
    OddKept(q[j], Pow2(b - 1));
  }

  lemma {:induction false} AddValue(q: seq<int>, j: nat, b: nat, e: int)
    requires |q| == 256 && 1 <= b && j + b < 256 && q[j + b] == e
    ensures Weigh(2, q[j := q[j] + Pow2(b) * e][j + b := 0]) == Weigh(2, q)
  {
    hide *;
    var v := Pow2(b) * e;
    BitUpdate(q, j, q[j] + v);
    BitUpdate(q[j := q[j] + v], j + b, 0);
    Pow2Add(j, b);
    MulAssoc(Pow2(j), Pow2(b), e);
    Factored(Pow2(j + b), 0, e);
  }

  lemma {:induction false} SubValue(q: seq<int>, j: nat, b: nat)
    requires |q| == 256 && 1 <= b && j + b < 256
    ensures Weigh(2, q[j := q[j] - Pow2(b)]) == Weigh(2, q) - Pow2(j + b)
  {
    hide *;
    BitUpdate(q, j, q[j] - Pow2(b));
    Pow2Add(j, b);
    Factored(Pow2(j), 0, Pow2(b));
  }

  lemma {:induction false} OpenAdd(q: seq<int>, j: nat, b: nat, m: nat, s: int)
    requires Open(q, j, b, m, s) && j + b < 256 && q[j] + Pow2(b) * q[j + b] <= m
    ensures Open(q[j := q[j] + Pow2(b) * q[j + b]][j + b := 0], j, b + 1, m, s)
  {
    var e := q[j + b];
    assert e == 0 || e == 1;
    DigitKept(q, j, b, m, s, e);
    AddValue(q, j, b, e);
    var v := Pow2(b) * e;
    assert 0 <= v;
    hide Weigh, Pow2;
  }

  /** The digit loses a bit's weight, and `p`, with one added at the bit, restores the value. */
  lemma {:induction false} OpenSub(q: seq<int>, j: nat, b: nat, m: nat, s: int, p: seq<int>)
    requires Open(q, j, b, m, s) && j + b < 256 && q[j + b] == 1 && q[j] - Pow2(b) + m >= 0
    requires |p| == 256 && p[..j + b] == q[j := q[j] - Pow2(b)][..j + b] && Bits(p, j + b) && p[j + b] == 0
    requires Weigh(2, p) == Weigh(2, q[j := q[j] - Pow2(b)]) + Pow2(j + b)
    ensures Open(p, j, b + 1, m, s)
  {
    var q' := q[j := q[j] - Pow2(b)];
    DigitKept(q, j, b, m, s, 1);
    SubValue(q, j, b);
    hide Weigh, Pow2;
    forall i | j <= i < j + b ensures p[i] == q'[i] {
      assert p[i] == p[..j + b][i] == q'[..j + b][i];
    }
  }

  /** When the window closes, the part below is above minus the weight of every bit left. */
  ghost predicate Settled(q: seq<int>, j: nat)
    requires j <= |q|
  {
    forall t :: j <= t < |q| && q[t] != 0 ==> Weigh(2, q[..j]) + Pow2(t) > 0
  }

  lemma {:induction false} OpenCloses(q: seq<int>, j: nat, b: nat, m: nat, s: int)
    requires Open(q, j, b, m, s) && Weigh(2, q[..j]) + Pow2(j) > 0
    ensures Settled(q, j + 1)
  {
    hide Weigh, Pow2;
    forall t | j + 1 <= t < 256 && q[t] != 0 ensures Weigh(2, q[..j + 1]) + Pow2(t) > 0 {
      assert t >= j + b;
      Pow2Monotone(j + b, t);
      WeighTake(2, q, j);
      PowerOfTwo(j);
      Pow2Add(j, b);
      MulGap(Pow2(j), q[j] + Pow2(b), 0);
      Factored(Pow2(j), q[j], Pow2(b));
    }
  }

  function Shl(x: int, b: nat): int {
    Pow2(b) * x
  }

  /** The digit at `j` takes in the bits that follow it, as far as the window allows. */
  method Widen(r: array<Schar>, j: nat, m: nat, ghost s: nat)
    requires r.Length == 256 && j < 256 && 1 <= m < 128 && s <= Pow2(255)
    requires Weigh(2, r[..]) == s && Bits(r[..], j) && r[j] == 1 && Settled(r[..], j)
    modifies r
    ensures r[..j] == old(r[..j])
    ensures Weigh(2, r[..]) == s && Bits(r[..], j + 1) && Settled(r[..], j + 1)
    ensures r[j] % 2 != 0 && 0 <= r[j] + m && r[j] <= m
  {
    hide *;
    var b := 1;
    ghost var low := r[..j];
    SettledAt(r[..], j);
    OpenStart(r[..], j, m, s);
    while b < 256 - j && b <= 6
      invariant 1 <= b && j + b <= 256
      invariant r[..j] == low && Open(r[..], j, b, m, s)
    {
      ghost var q := r[..];
      OpenBit(q, j, b, m, s);
      var e := Shl(r[j + b], b);
      if r[j] + e <= m {
        OpenAdd(q, j, b, m, s);
        r[j] := r[j] + e;
        r[j + b] := 0;
        assert r[..] == q[j := q[j] + e][j + b := 0];
      } else if r[j] - e + m >= 0 {
        SubtractsFromPositive(r[j], e, m);
        CarryLands(q, j, b, m, s);
        r[j] := r[j] - e;
        ghost var q' := q[j := q[j] - e];
        assert r[..] == q';
        BitsKept(q, q', j, b);
        Carry(r, j + b);
        assert r[..][..j + b] == q'[..j + b];
        OpenSub(q, j, b, m, s, r[..]);
        assert r[..j] == r[..][..j + b][..j] == q[..j];
      } else if r[j + b] != 0 {
        break;
      }
      b := b + 1;
    }
    OpenCloses(r[..], j, b, m, s);
    OpenEnds(r[..], j, b, m, s);
  }

  lemma SettledAt(q: seq<int>, j: nat)
    requires j < |q| && Settled(q, j) && q[j] != 0
    ensures Weigh(2, q[..j]) + Pow2(j) > 0
  {
    hide Weigh, Pow2;
  }

  lemma OpenStart(q: seq<int>, j: nat, m: nat, s: int)
    requires |q| == 256 && j < 256 && m >= 1 && Weigh(2, q) == s && Bits(q, j) && q[j] == 1
    ensures Open(q, j, 1, m, s)
  {
    hide Weigh;
  }

  lemma OpenBit(q: seq<int>, j: nat, b: nat, m: nat, s: int)
    requires Open(q, j, b, m, s) && j + b < 256
    ensures |q| == 256 && (q[j + b] == 0 || q[j + b] == 1) && 0 <= q[j] + m && q[j] <= m
    ensures Shl(q[j + b], b) == Pow2(b) * q[j + b] == (if q[j + b] == 1 then Pow2(b) else 0)
    ensures Bits(q, j + b)
  {
    hide Weigh, Pow2;
  }

  lemma BitsKept(q: seq<int>, p: seq<int>, j: nat, b: nat)
    requires |q| == |p| == 256 && 1 <= b && j + b < 256 && p == q[j := p[j]] && Bits(q, j + b)
    ensures Bits(p, j + b) && (AllOnes(p, j + b) <==> AllOnes(q, j + b))
  {
    assert forall i :: j + b <= i < 256 ==> p[i] == q[i];
  }

  lemma OpenEnds(q: seq<int>, j: nat, b: nat, m: nat, s: int)
    requires Open(q, j, b, m, s)
    ensures Weigh(2, q) == s && Bits(q, j + 1) && q[j] % 2 != 0 && 0 <= q[j] + m && q[j] <= m
  {
    hide Weigh, Pow2;
  }

  // ---------- the recoding ----------

  /** Zero, or odd within the table of a window of `w` bits. */
  ghost predicate IsDigit(x: int, w: nat)
    requires w >= 1
  {
    x == 0 || (x % 2 != 0 && 0 < x + Pow2(w - 1) && x < Pow2(w - 1))
  }

  lemma SmallWindow(w: nat)
    requires 2 <= w <= 8
    ensures 1 <= Pow2(w - 1) - 1 < 128
  {
    Pow2Monotone(1, w - 1);
    Pow2Monotone(w - 1, 7);
    assert Pow2(7) == 128 by { Pow2Step(3); Pow2Step(4); Pow2Step(5); Pow2Step(6); }
  }

  /**
   * `contract256_slidingwindow_modm`: digits that are zero or odd within the window, with the value of
   * the scalar. No carry leaves the array.
   */
  method SlidingWindow(r: array<Schar>, s: Scalar, windowsize: nat)
    requires r.Length == 256 && 2 <= windowsize <= 8 && Val(s) <= Pow2(255)
    modifies r
    ensures Weigh(2, r[..]) == Val(s)
    ensures forall i :: 0 <= i < 256 ==> IsDigit(r[i], windowsize)
  {
    hide *;
    SmallWindow(windowsize);
    var m := Pow2(windowsize - 1) - 1;
    Expand(r, s, 2, 56, 32);
    ValBounds(s);
    BitsStart(r[..]);
    SettledStart(r[..]);
    for j := 0 to 256
      invariant Weigh(2, r[..]) == Val(s) && Bits(r[..], j) && Settled(r[..], j)
      invariant forall i :: 0 <= i < j ==> IsDigit(r[i], windowsize)
    {
      BitsNext(r[..], j);
      DigitIs(0, windowsize);
      if r[j] == 0 {
        continue;
      }
      ghost var q := r[..];
      Widen(r, j, m, Val(s));
      DigitIs(r[j], windowsize);
      forall i | 0 <= i < j ensures IsDigit(r[i], windowsize) {
        assert r[i] == r[..j][i] == q[..j][i];
      }
    }
  }

  lemma BitsStart(q: seq<int>)
    requires forall k :: 0 <= k < |q| ==> 0 <= q[k] < 2
    ensures Bits(q, 0)
  {
  }

  lemma SettledStart(q: seq<int>)
    ensures Settled(q, 0)
  {
    assert q[..0] == [];
  }

  lemma {:induction false} BitsNext(q: seq<int>, j: nat)
    requires j < |q| && Bits(q, j) && Settled(q, j)
    ensures q[j] == 0 || q[j] == 1
    ensures q[j] == 0 ==> Bits(q, j + 1) && Settled(q, j + 1)
  {
    hide Weigh, Pow2;
    if q[j] == 0 {
      WeighTake(2, q, j);
    }
  }

  lemma DigitIs(x: int, w: nat)
    requires w >= 1 && (x == 0 || (x % 2 != 0 && 0 <= x + (Pow2(w - 1) - 1) && x <= Pow2(w - 1) - 1))
    ensures IsDigit(x, w)
  {
    hide Pow2;
  }
}
