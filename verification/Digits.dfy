/** Values of digit sequences, least significant first, with digits of any sign. */
module Digits {
  import opened Binary

  function Power(b: nat, k: nat): nat {
    if k == 0 then 1 else b * Power(b, k - 1)
  }

  function Weigh(b: nat, s: seq<int>): int {
    if s == [] then 0 else s[0] + b * Weigh(b, s[1..])
  }

  lemma PowerStep(b: nat, k: nat)
    ensures Power(b, 0) == 1 && Power(b, k + 1) == b * Power(b, k)
  {
  }

  lemma {:induction false} PowerOfTwo(k: nat)
    ensures Power(2, k) == Pow2(k)
  {
    if k > 0 {
      PowerOfTwo(k - 1);
    }
  }

  lemma WeighStep(b: nat, x: int, s: seq<int>)
    ensures Weigh(b, []) == 0 && Weigh(b, [x] + s) == x + b * Weigh(b, s)
  {
    assert ([x] + s)[1..] == s;
  }

  lemma Spread(b: int, x: int, p: int, y: int)
    ensures b * (x + p * y) == b * x + (b * p) * y
  {
    assert b * (p * y) == (b * p) * y;
  }

  lemma Factored(p: int, x: int, y: int)
    ensures p * (x + y) == p * x + p * y && p * (x - y) == p * x - p * y
  {
  }

  lemma {:induction false} WeighConcat(b: nat, s: seq<int>, t: seq<int>)
    ensures Weigh(b, s + t) == Weigh(b, s) + Power(b, |s|) * Weigh(b, t)
  {
    hide *;
    PowerStep(b, 0);
    if s == [] {
      WeighStep(b, 0, []);
      assert s + t == t;
    } else {
      var r := s[1..];
      WeighConcat(b, r, t);
      WeighStep(b, s[0], r);
      WeighStep(b, s[0], r + t);
      assert s == [s[0]] + r && s + t == [s[0]] + (r + t);
      PowerStep(b, |r|);
      Spread(b, Weigh(b, r), Power(b, |r|), Weigh(b, t));
    }
  }

  lemma {:induction false} WeighSplit(b: nat, s: seq<int>, i: nat)
    requires i < |s|
    ensures Weigh(b, s) == Weigh(b, s[..i]) + Power(b, i) * (s[i] + b * Weigh(b, s[i + 1..]))
  {
    hide *;
    WeighConcat(b, s[..i], s[i..]);
    assert s == s[..i] + s[i..] && s[i..] == [s[i]] + s[i + 1..];
    WeighStep(b, s[i], s[i + 1..]);
  }

  lemma {:induction false} WeighTake(b: nat, s: seq<int>, i: nat)
    requires i < |s|
    ensures Weigh(b, s[..i + 1]) == Weigh(b, s[..i]) + Power(b, i) * s[i]
  {
    hide *;
    WeighConcat(b, s[..i], [s[i]]);
    assert s[..i + 1] == s[..i] + [s[i]] && [s[i]] == [s[i]] + [];
    WeighStep(b, s[i], []);
  }

  lemma {:induction false} WeighUpdate(b: nat, s: seq<int>, i: nat, v: int)
    requires i < |s|
    ensures Weigh(b, s[i := v]) == Weigh(b, s) + Power(b, i) * (v - s[i])
  {
    hide *;
    var t := s[i := v];
    assert t[..i] == s[..i] && t[i + 1..] == s[i + 1..];
    WeighSplit(b, s, i);
    WeighSplit(b, t, i);
    var rest := b * Weigh(b, s[i + 1..]);
    Factored(Power(b, i), v, rest);
    Factored(Power(b, i), s[i], rest);
    Factored(Power(b, i), v, s[i]);
  }

  lemma {:induction false} WeighZeros(b: nat, s: seq<int>)
    requires forall i :: 0 <= i < |s| ==> s[i] == 0
    ensures Weigh(b, s) == 0
  {
    if s != [] {
      WeighZeros(b, s[1..]);
    }
  }

  /** All ones in base 2. */
  lemma {:induction false} WeighOnes(s: seq<int>)
    requires forall i :: 0 <= i < |s| ==> s[i] == 1
    ensures Weigh(2, s) == Pow2(|s|) - 1
  {
    if s != [] {
      WeighOnes(s[1..]);
    }
  }

  lemma {:induction false} WeighBits(s: seq<int>)
    requires forall i :: 0 <= i < |s| ==> s[i] == 0 || s[i] == 1
    ensures 0 <= Weigh(2, s) < Pow2(|s|)
  {
    if s != [] {
      WeighBits(s[1..]);
    }
  }
}
