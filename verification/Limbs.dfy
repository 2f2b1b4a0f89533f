/** Scalars as five 56-bit limbs, and the comparisons that look at the low limbs only. */
module Limbs {
  import opened Binary

  const RADIX := 0x100_0000_0000_0000

  type Limb = x: int | 0 <= x < 0x100_0000_0000_0000

  type Scalar = s: seq<Limb> | |s| == 5 witness [0, 0, 0, 0, 0]

  type u64 = x: int | 0 <= x < 0x1_0000_0000_0000_0000

  const WORD := 0x1_0000_0000_0000_0000

  function RPow(k: nat): (p: nat)
    ensures p > 0
  {
    if k == 0 then 1 else RADIX * RPow(k - 1)
  }

  function Val(s: seq<int>): int {
    if s == [] then 0 else s[0] + RADIX * Val(s[1..])
  }

  lemma {:induction false} ValSnoc(s: seq<int>, x: int)
    ensures Val(s + [x]) == Val(s) + RPow(|s|) * x
  {
    if s != [] {
      ValSnoc(s[1..], x);
      assert (s + [x])[1..] == s[1..] + [x];
      assert (RADIX * RPow(|s| - 1)) * x == RADIX * (RPow(|s| - 1) * x);
    } else {
      assert (s + [x])[1..] == [];
    }
  }

  lemma {:induction false} ValTake(s: seq<int>, i: nat)
    requires i < |s|
    ensures Val(s[..i + 1]) == Val(s[..i]) + RPow(i) * s[i]
  {
    hide Val;
    ValSnoc(s[..i], s[i]);
    assert s[..i + 1] == s[..i] + [s[i]];
  }

  lemma {:induction false} ValBounds(s: seq<Limb>)
    ensures 0 <= Val(s) < RPow(|s|)
  {
    if s != [] {
      ValBounds(s[1..]);
    }
  }

  /** Limbs above `k` are zero. */
  predicate Within(s: seq<int>, k: int) {
    forall j :: 0 <= j < |s| && j > k ==> s[j] == 0
  }

  lemma {:induction false} ValWithin(s: seq<int>, k: nat, n: nat)
    requires Within(s, k) && k < n <= |s|
    ensures Val(s[..n]) == Val(s[..k + 1])
    decreases n
  {
    if n > k + 1 {
      ValTake(s, n - 1);
      ValWithin(s, k, n - 1);
    }
  }

  lemma {:induction false} ValWindow(s: Scalar, k: nat)
    requires Within(s, k) && k < 5
    ensures Val(s) == Val(s[..k + 1])
  {
    hide Val;
    ValWithin(s, k, 5);
    assert s[..5] == s;
  }

  /** One limb of a subtraction with borrow decides the borrow out. */
  lemma {:induction false} BorrowStep(a: seq<Limb>, b: seq<Limb>, i: nat, carry: int)
    requires i < |a| && i < |b|
    requires carry == if Val(a[..i]) < Val(b[..i]) then 1 else 0
    ensures a[i] - b[i] - carry < 0 <==> Val(a[..i + 1]) < Val(b[..i + 1])
  {
    hide Val, RPow;
    ValTake(a, i);
    ValTake(b, i);
    ValBounds(a[..i]);
    ValBounds(b[..i]);
    BorrowCases(Val(a[..i]), Val(b[..i]), RPow(i), a[i], b[i], carry);
  }

  lemma BorrowCases(va: int, vb: int, p: int, x: int, y: int, carry: int)
    requires 0 <= va < p && 0 <= vb < p && carry == if va < vb then 1 else 0
    ensures x - y - carry < 0 <==> va + p * x < vb + p * y
  {
    if x < y {
      assert p * x + p <= p * y by { assert p * (x + 1) <= p * y; }
    } else if x > y {
      assert p * y + p <= p * x by { assert p * (y + 1) <= p * x; }
    }
  }

  /** `lt256_modm_batch`: wrap-around subtractions, limb after limb; the last borrow is the answer. */
  method LtBatch(a: Scalar, b: Scalar, limbsize: nat) returns (r: bool)
    requires limbsize < 5
    ensures r <==> Val(a[..limbsize + 1]) < Val(b[..limbsize + 1])
  {
    hide Val;
    var carry := 0;
    assert a[..0] == b[..0];
    for i := 0 to limbsize + 1
      invariant carry == if Val(a[..i]) < Val(b[..i]) then 1 else 0
    {
      BorrowStep(a, b, i, carry);
      var t: u64 := (a[i] - b[i] - carry) % WORD;
      carry := t / 0x8000_0000_0000_0000;
    }
    r := carry == 1;
  }

  /** `lte256_modm_batch` */
  method LteBatch(a: Scalar, b: Scalar, limbsize: nat) returns (r: bool)
    requires limbsize < 5
    ensures r <==> Val(a[..limbsize + 1]) <= Val(b[..limbsize + 1])
  {
    hide Val;
    var carry := 0;
    assert a[..0] == b[..0];
    for i := 0 to limbsize + 1
      invariant carry == if Val(b[..i]) < Val(a[..i]) then 1 else 0
    {
      BorrowStep(b, a, i, carry);
      var t: u64 := (b[i] - a[i] - carry) % WORD;
      carry := t / 0x8000_0000_0000_0000;
    }
    r := carry == 0;
  }

  /** `sub256_modm_batch`, in place in `a`: the limbs above `limbsize` are left alone. */
  method SubBatch(a: Scalar, b: Scalar, limbsize: nat) returns (out: Scalar)
    requires limbsize < 5 && Val(b[..limbsize + 1]) <= Val(a[..limbsize + 1])
    ensures Val(out[..limbsize + 1]) == Val(a[..limbsize + 1]) - Val(b[..limbsize + 1])
    ensures out[limbsize + 1..] == a[limbsize + 1..]
  {
    hide Val, RPow;
    out := a;
    var carry := 0;
    assert a[..0] == b[..0] == out[..0];
    assert Val([]) == 0 && RPow(0) == 1 by { ValEmpty(); }
    for i := 0 to limbsize
      invariant out[i..] == a[i..]
      invariant carry == if Val(a[..i]) < Val(b[..i]) then 1 else 0
      invariant Val(out[..i]) == Val(a[..i]) - Val(b[..i]) + (if carry == 1 then RPow(i) else 0)
    {
      BorrowStep(a, b, i, carry);
      ghost var before := out;
      var t: u64 := (a[i] - b[i] - carry) % WORD;
      out := out[i := t % RADIX];
      SubStep(a, b, before, out, i, carry);
      carry := t / 0x8000_0000_0000_0000;
    }
    BorrowStep(a, b, limbsize, carry);
    ghost var before := out;
    out := out[limbsize := (a[limbsize] - b[limbsize] - carry) % WORD];
    SubStep(a, b, before, out, limbsize, carry);
  }

  lemma ValEmpty()
    ensures Val([]) == 0 && RPow(0) == 1
  {
  }

  lemma {:induction false} SubStep(a: Scalar, b: Scalar, before: Scalar, out: seq<int>, i: nat, carry: int)
    requires i < 5 && 0 <= carry <= 1 && |out| == 5
    requires Val(before[..i]) == Val(a[..i]) - Val(b[..i]) + (if carry == 1 then RPow(i) else 0)
    requires var d := a[i] - b[i] - carry; out == before[i := if d < 0 then d + RADIX else d]
    ensures Val(out[..i + 1]) == Val(a[..i + 1]) - Val(b[..i + 1])
      + (if a[i] - b[i] - carry < 0 then RPow(i + 1) else 0)
  {
    assert RPow(i + 1) == RADIX * RPow(i);
    hide Val, RPow;
    ValTake(a, i);
    ValTake(b, i);
    ValTake(out, i);
    assert out[..i] == before[..i];
    var d := a[i] - b[i] - carry;
    assert out[i] == if d < 0 then d + RADIX else d;
    SubAlgebra(Val(a[..i]), Val(b[..i]), Val(out[..i]), RPow(i), a[i], b[i], carry);
  }

  lemma SubAlgebra(va: int, vb: int, vo: int, p: int, x: int, y: int, carry: int)
    requires vo == va - vb + p * carry
    ensures vo + p * (x - y - carry) == va + p * x - (vb + p * y)
    ensures vo + p * (x - y - carry + RADIX) == va + p * x - (vb + p * y) + RADIX * p
  {
  }

  lemma {:induction false} Val5(s: seq<int>)
    requires |s| == 5
    ensures Val(s) == s[0] + RADIX * (s[1] + RADIX * (s[2] + RADIX * (s[3] + RADIX * s[4])))
  {
    assert s[1..][1..] == s[2..] && s[2..][1..] == s[3..] && s[3..][1..] == s[4..] && s[4..][1..] == [];
    assert Val(s[4..]) == s[4];
    assert Val(s[3..]) == s[3] + RADIX * Val(s[4..]);
    assert Val(s[2..]) == s[2] + RADIX * Val(s[3..]);
    assert Val(s[1..]) == s[1] + RADIX * Val(s[2..]);
  }

  lemma {:induction false} RadixIsPow2()
    ensures Pow2(56) == RADIX == 0x100_0000_0000_0000 && Pow2(55) == 0x80_0000_0000_0000
  {
    assert RADIX == 0x100_0000_0000_0000;
    hide *;
    Pow2Values();
    Pow2Add(32, 16); Pow2Add(48, 8);
    Pow2Step(55);
  }

  lemma {:induction false} RPowIs(k: nat)
    ensures RPow(k) == Pow2(56 * k)
  {
    if k > 0 {
      RPowIs(k - 1);
      RadixIsPow2();
      hide Pow2;
      Pow2Add(56, 56 * (k - 1));
    }
  }
}
