/** `ge25519_multi_scalarmult_vartime`: the main loop, what it leaves and when that is the whole sum. */
module MultiScalar {
  import opened Options
  import opened Groups
  import opened Limbs
  import opened BatchHeap
  import opened BosCoster
  import opened Binary
  import opened Divisors
  import opened Arith

  /** `((count + 1) / 2) | 1` */
  function Built(count: nat): nat {
    var half := (count + 1) / 2;
    if half % 2 == 0 then half + 1 else half
  }

  /** The least odd number not below half of the count, rounded up. */
  lemma BuiltIs(count: nat)
    ensures Built(count) % 2 == 1 && 2 * Built(count) >= count
    ensures forall n: nat :: n % 2 == 1 && 2 * n >= count ==> n >= Built(count)
  {
    forall n: nat | n % 2 == 1 && 2 * n >= count ensures n >= Built(count) {
    }
  }

  /** `heap_build` and `heap_extend`: inserts until the heap has `n` members. */
  method Grow(heap: array<nat>, scalars: array<Scalar>, size: nat, n: nat)
    requires size <= n <= heap.Length == scalars.Length
    requires IsHeap(heap[..size], scalars[..])
    modifies heap
    ensures IsHeap(heap[..n], scalars[..])
  {
    hide IsHeap;
    for i := size to n
      invariant IsHeap(heap[..i], scalars[..])
    {
      InsertNext(heap, scalars, i);
    }
  }

  lemma EmptyHeap(sc: seq<Scalar>)
    ensures IsHeap([], sc)
  {
  }

  lemma FullWindows(sc: seq<Scalar>, n: nat)
    requires n <= |sc|
    ensures Window(sc, n, 4)
  {
  }

  /** The new scalar of the root: only the order around the root is open. */
  lemma {:induction false} RootChanged(h: seq<nat>, sc: seq<Scalar>, d: Scalar)
    requires IsHeap(h, sc) && |h| > 0
    ensures h[0] < |sc| && Sinking(h, sc[h[0] := d], 0)
  {
    hide Val;
    var k, k' := Keys(h, sc), Keys(h, sc[h[0] := d]);
    assert forall i :: 0 < i < |h| ==> k'[i] == k[i];
  }

  /** The difference keeps within the compared limbs. */
  lemma {:induction false} WindowKept(sc: seq<Scalar>, n: nat, limbsize: nat, a: nat, d: Scalar)
    requires n <= |sc| && a < n && limbsize < 5 && Window(sc, n, limbsize)
    requires d[limbsize + 1..] == sc[a][limbsize + 1..]
    ensures Window(sc[a := d], n, limbsize) && Within(d, limbsize)
  {
    forall j | limbsize < j < 5
      ensures d[j] == 0
    {
      assert d[j] == d[limbsize + 1..][j - limbsize - 1] == sc[a][limbsize + 1..][j - limbsize - 1] == sc[a][j];
    }
  }

  lemma {:induction false} WindowShrinks(sc: seq<Scalar>, n: nat, limbsize: nat, max: nat)
    requires n <= |sc| && max < n && limbsize < 5 && Window(sc, n, limbsize) && sc[max][limbsize] == 0
    requires Val(sc[max]) > 0
    requires forall i :: 0 <= i < n ==> Val(sc[i]) <= Val(sc[max])
    ensures limbsize > 0 && Window(sc, n, limbsize - 1)
  {
    hide Val;
    if limbsize == 0 {
      SmallIs(sc[max]);
    }
    forall i | 0 <= i < n ensures Within(sc[i], limbsize - 1) {
      LimbExhausted(sc[max], sc[i], limbsize);
    }
  }

  /**
   * Before the 128-bit scalars join, at least three limbs are compared: the maximum at most halves
   * in each turn, so it cannot fall from above 2^128 to below 2^112 unseen.
   */
  ghost predicate Wide(sc: seq<Scalar>, n: nat, limbsize: nat)
    requires n <= |sc|
  {
    limbsize >= 3 || (limbsize == 2 && exists i :: 0 <= i < n && 2 * Val(sc[i]) >= P128)
  }

  lemma {:induction false} WideEnough(sc: seq<Scalar>, n: nat, limbsize: nat, max: nat)
    requires n <= |sc| && max < n && limbsize < 5 && Window(sc, n, limbsize) && Wide(sc, n, limbsize)
    requires forall i :: 0 <= i < n ==> Val(sc[i]) <= Val(sc[max])
    ensures sc[max][limbsize] == 0 ==> limbsize >= 3
  {
    hide Val;
    if limbsize == 2 {
      ThirdLimb(sc[max]);
    }
  }

  /** Members of at most 128 bits fit three limbs. */
  lemma {:induction false} WindowGrows(sc: seq<Scalar>, n: nat, n': nat, limbsize: nat)
    requires n <= n' <= |sc| && 2 <= limbsize < 5 && Window(sc, n, limbsize)
    requires forall i :: n <= i < n' ==> Val(sc[i]) < P128
    ensures Window(sc, n', limbsize)
  {
    hide Val;
    forall i | n <= i < n' ensures Within(sc[i], limbsize) {
      ThreeLimbs(sc[i], 0);
    }
  }

  /** After a turn that started above 2^128 some member is at least 2^127. */
  lemma {:induction false} StaysWide(sc: seq<Scalar>, n: nat, limbsize: nat, a: nat, b: nat, d: Scalar)
    requires n <= |sc| && a < n && b < n && a != b && limbsize < 5 && Window(sc, n, limbsize)
    requires Val(sc[a]) >= P128 && Val(d) == Val(sc[a]) - Val(sc[b])
    ensures Wide(sc[a := d], n, limbsize)
  {
    hide Val;
    ThreeLimbs(sc[a], limbsize);
    var sc' := sc[a := d];
    if 2 * Val(sc[b]) >= P128 {
      assert sc'[b] == sc[b];
    } else {
      assert sc'[a] == d;
    }
  }

  // ---------- conservation ----------

  /** The first `n` scalars have the same common divisors. */
  ghost predicate Alike(sc: seq<Scalar>, sc0: seq<Scalar>, n: nat)
    requires n <= |sc| && n <= |sc0|
  {
    forall d: nat :: d > 0 ==> (Common(d, Vals(sc, n)) <==> Common(d, Vals(sc0, n)))
  }

  lemma {:induction false} AlikeStep(sc: seq<Scalar>, sc0: seq<Scalar>, n: nat, a: nat, b: nat, x: Scalar)
    requires n <= |sc| && n <= |sc0| && Alike(sc, sc0, n) && a < n && b < n && a != b
    requires Val(x) == Val(sc[a]) - Val(sc[b])
    ensures Alike(sc[a := x], sc0, n)
  {
    hide Val, Divides;
    var s, t := Vals(sc, n), Vals(sc[a := x], n);
    assert t[a] + s[b] == s[a] && forall i :: 0 <= i < n && i != a ==> t[i] == s[i];
    forall d: nat | d > 0 ensures Common(d, s) <==> Common(d, t) {
      if Divides(d, s[b]) {
        DividesSum(d, t[a], s[b]);
      }
      assert t[b] == s[b];
      if Common(d, t) {
        forall i | 0 <= i < n ensures Divides(d, s[i]) {
          assert Divides(d, t[i]);
        }
      }
      if Common(d, s) {
        forall i | 0 <= i < n ensures Divides(d, t[i]) {
          assert Divides(d, s[i]);
        }
      }
    }
  }

  lemma {:induction false} AlikeSnoc(sc: seq<Scalar>, sc0: seq<Scalar>, n: nat)
    requires n < |sc| && n < |sc0| && Alike(sc, sc0, n) && sc[n] == sc0[n]
    ensures Alike(sc, sc0, n + 1)
  {
    hide Val, Divides;
    var s, t := Vals(sc, n), Vals(sc0, n);
    var s', t' := Vals(sc, n + 1), Vals(sc0, n + 1);
    forall d: nat | d > 0 ensures Common(d, s') <==> Common(d, t') {
      CommonSnoc(d, s, s');
      CommonSnoc(d, t, t');
    }
  }

  lemma CommonSnoc(d: nat, s: seq<nat>, t: seq<nat>)
    requires d > 0 && |t| == |s| + 1 && t[..|s|] == s
    ensures Common(d, t) <==> Common(d, s) && Divides(d, t[|s|])
  {
    hide Divides;
    assert forall i :: 0 <= i < |s| ==> t[i] == s[i];
  }

  /**
   * The sum over the members and their common divisors are the initial ones, and the other pairs are
   * untouched.
   */
  ghost predicate Conserved<G>(g: Group<G>, sc: seq<Scalar>, pts: seq<G>, sc0: seq<Scalar>, pts0: seq<G>, n: nat) {
    && n <= |sc| == |sc0| == |pts| == |pts0|
    && Sum(g, Terms(g, sc, pts, n)) == Sum(g, Terms(g, sc0, pts0, n))
    && Alike(sc, sc0, n)
    && sc[n..] == sc0[n..] && pts[n..] == pts0[n..]
  }

  lemma {:induction false} ConservedExtends<G>(g: Group<G>, sc: seq<Scalar>, pts: seq<G>, sc0: seq<Scalar>,
                                               pts0: seq<G>, n: nat, n': nat)
    requires Conserved(g, sc, pts, sc0, pts0, n) && n <= n' <= |sc|
    ensures Conserved(g, sc, pts, sc0, pts0, n')
    decreases n' - n
  {
    if n < n' {
      assert sc[n] == sc[n..][0] == sc0[n..][0] == sc0[n] && pts[n] == pts[n..][0] == pts0[n..][0] == pts0[n];
      assert sc[n + 1..] == sc[n..][1..] && sc0[n + 1..] == sc0[n..][1..];
      assert pts[n + 1..] == pts[n..][1..] && pts0[n + 1..] == pts0[n..][1..];
      hide Val, Times, Sum, Alike;
      AlikeSnoc(sc, sc0, n);
      ValNonnegative(sc[n]);
      var x := Times(g, Val(sc[n]), pts[n]);
      assert Terms(g, sc, pts, n + 1) == Terms(g, sc, pts, n) + [x];
      assert Terms(g, sc0, pts0, n + 1) == Terms(g, sc0, pts0, n) + [x];
      SumSnoc(g, Terms(g, sc, pts, n), x);
      SumSnoc(g, Terms(g, sc0, pts0, n), x);
      ConservedExtends(g, sc, pts, sc0, pts0, n + 1, n');
    }
  }

  lemma {:induction false} ConservedStep<G(!new)>(g: Group<G>, sc: seq<Scalar>, pts: seq<G>, sc0: seq<Scalar>,
                                                  pts0: seq<G>, n: nat, a: nat, b: nat, d: Scalar)
    requires Abelian(g) && Conserved(g, sc, pts, sc0, pts0, n) && a < n && b < n && a != b
    requires Val(sc[b]) <= Val(sc[a]) && Val(d) == Val(sc[a]) - Val(sc[b])
    ensures Conserved(g, sc[a := d], pts[b := g.add(pts[b], pts[a])], sc0, pts0, n)
  {
    hide Val, Times, Sum, Terms, Alike;
    AlikeStep(sc, sc0, n, a, b, d);
    StepKeepsSum(g, sc, pts, n, a, b, d);
    assert sc[a := d][n..] == sc[n..];
    assert pts[b := g.add(pts[b], pts[a])][n..] == pts[n..];
  }

  /** With all members but one at zero the sum is that one product. */
  lemma {:induction false} OneLeft<G(!new)>(g: Group<G>, sc: seq<Scalar>, pts: seq<G>, n: nat, a: nat, b: nat)
    requires Abelian(g) && n <= |sc| && n <= |pts| && a < n && b < n && IsZero(sc[b])
    requires forall i :: 0 <= i < n && i != a ==> Val(sc[i]) <= Val(sc[b])
    ensures Val(sc[a]) >= 0 && Sum(g, Terms(g, sc, pts, n)) == Times(g, Val(sc[a]), pts[a])
  {
    hide Val, Times, Sum;
    SmallIs(sc[b]);
    ValNonnegative(sc[a]);
    var t := Terms(g, sc, pts, n);
    forall i | 0 <= i < n && i != a ensures t[i] == g.zero {
      ValNonnegative(sc[i]);
      TimesSmall(g, pts[i]);
    }
    SumZeros(g, t, a);
  }

  lemma WindowVal(sc: seq<Scalar>, n: nat, limbsize: nat, i: nat)
    requires i < n <= |sc| && limbsize < 5 && Window(sc, n, limbsize)
    ensures Val(sc[i][..limbsize + 1]) == Val(sc[i])
  {
    hide Val;
    ValWindow(sc[i], limbsize);
  }

  lemma ConservedLengths<G>(g: Group<G>, sc: seq<Scalar>, pts: seq<G>, sc0: seq<Scalar>, pts0: seq<G>, n: nat)
    requires Conserved(g, sc, pts, sc0, pts0, n)
    ensures n <= |sc| == |sc0| == |pts| == |pts0|
  {
  }

  /** What subtracting the second largest scalar from the largest one keeps. */
  lemma {:induction false} TurnKeeps<G(!new)>(g: Group<G>, h: seq<nat>, sc: seq<Scalar>, pts: seq<G>, sc0: seq<Scalar>,
                                              pts0: seq<G>, limbsize: nat, b: nat, d: Scalar)
    requires Abelian(g) && 0 < |h| <= |sc| && limbsize < 5 && IsHeap(h, sc) && Window(sc, |h|, limbsize)
    requires Conserved(g, sc, pts, sc0, pts0, |h|)
    requires h[0] < |h| && b < |h| && h[0] != b && Val(sc[b]) <= Val(sc[h[0]])
    requires Val(d[..limbsize + 1]) == Val(sc[h[0]][..limbsize + 1]) - Val(sc[b][..limbsize + 1])
    requires d[limbsize + 1..] == sc[h[0]][limbsize + 1..]
    ensures |pts| == |sc| && Val(d) == Val(sc[h[0]]) - Val(sc[b])
    ensures Sinking(h, sc[h[0] := d], 0) && Window(sc[h[0] := d], |h|, limbsize)
    ensures Conserved(g, sc[h[0] := d], pts[b := g.add(pts[b], pts[h[0]])], sc0, pts0, |h|)
  {
    hide Val, Times, Sum, Terms, Conserved, IsHeap, Sinking, Window, Within;
    var a := h[0];
    WindowVal(sc, |h|, limbsize, a);
    WindowVal(sc, |h|, limbsize, b);
    WindowKept(sc, |h|, limbsize, a, d);
    ValWindow(d, limbsize);
    RootChanged(h, sc, d);
    ConservedLengths(g, sc, pts, sc0, pts0, |h|);
    ConservedStep(g, sc, pts, sc0, pts0, |h|, a, b, d);
  }

  /** One turn of the main loop: the difference, the sum of the points, and the heap restored. */
  method Turn<G(!new)>(g: Group<G>, heap: array<nat>, scalars: array<Scalar>, points: array<G>,
                       size: nat, limbsize: nat, max1: nat, max2: nat,
                       ghost sc0: seq<Scalar>, ghost pts0: seq<G>) returns (d: Scalar)
    requires Abelian(g) && points.Length == scalars.Length && points as object != heap && points as object != scalars
    requires 3 <= size <= heap.Length == scalars.Length && size % 2 == 1 && limbsize < 5
    requires IsHeap(heap[..size], scalars[..]) && Window(scalars[..], size, limbsize)
    requires Conserved(g, scalars[..], points[..], sc0, pts0, size)
    requires max1 == heap[0] && max1 < size && max2 < size && max1 != max2
    requires Val(scalars[max2]) <= Val(scalars[max1])
    modifies heap, scalars, points
    ensures IsHeap(heap[..size], scalars[..]) && Window(scalars[..], size, limbsize)
    ensures Conserved(g, scalars[..], points[..], sc0, pts0, size)
    ensures Val(d) == old(Val(scalars[max1]) - Val(scalars[max2]))
    ensures scalars[..] == old(scalars[..])[max1 := d]
  {
    hide *;
    ghost var sc, pts, h := scalars[..], points[..], heap[..size];
    WindowVal(sc, size, limbsize, max1);
    WindowVal(sc, size, limbsize, max2);
    d := SubBatch(scalars[max1], scalars[max2], limbsize);
    TurnKeeps(g, h, sc, pts, sc0, pts0, limbsize, max2, d);
    var p := g.add(points[max2], points[max1]);
    scalars[max1] := d;
    points[max2] := p;
    assert scalars[..] == sc[max1 := d];
    assert points[..] == pts[max2 := p];
    UpdatedRoot(heap, scalars, size, limbsize);
  }

  lemma ConservedStart<G>(g: Group<G>, sc: seq<Scalar>, pts: seq<G>, n: nat)
    requires n <= |sc| == |pts|
    ensures Conserved(g, sc, pts, sc, pts, n)
  {
  }

  lemma TailKept<G>(g: Group<G>, sc: seq<Scalar>, pts: seq<G>, sc0: seq<Scalar>, pts0: seq<G>, n: nat, m: nat)
    requires Conserved(g, sc, pts, sc0, pts0, n) && m <= |sc|
    requires forall i :: n <= i < m ==> Val(sc0[i]) < P128
    ensures |sc| == |sc0| && forall i :: n <= i < m ==> Val(sc[i]) < P128
  {
    hide Val, Sum, Terms, Alike;
    forall i | n <= i < m ensures sc[i] == sc0[i] {
      assert sc[n..][i - n] == sc0[n..][i - n];
    }
  }

  // ---------- the main loop ----------

  /** At least two nonzero scalars. */
  ghost predicate Two(sc: seq<Scalar>, n: nat)
    requires n <= |sc|
  {
    exists a, b :: 0 <= a < n && 0 <= b < n && a != b && !IsZero(sc[a]) && !IsZero(sc[b])
  }

  /** Two members that together reach 2^128. */
  ghost predicate Heavy(sc: seq<Scalar>, n: nat)
    requires n <= |sc|
  {
    exists a, b :: 0 <= a < n && 0 <= b < n && a != b && Val(sc[a]) + Val(sc[b]) >= P128
  }

  ghost predicate Below(sc: seq<Scalar>, n: nat)
    requires n <= |sc|
  {
    forall i :: 0 <= i < n ==> Val(sc[i]) < P128
  }

  /** What the loop knows of the two phases: before and after the 128-bit scalars join. */
  ghost predicate Phase(sc: seq<Scalar>, sc0: seq<Scalar>, size: nat, count: nat, limbsize: nat,
                        extended: bool, turned: bool)
    requires size <= |sc| && Built(count) <= |sc0|
  {
    && (extended ==> turned && size == count && Below(sc, size) && GcdAll(Vals(sc0, Built(count))) < P128)
    && (!extended ==> size == Built(count) && Wide(sc, size, limbsize))
    && (turned ==> Two(sc0, Built(count)) && (extended || Heavy(sc, size)))
    && (!turned ==> sc == sc0)
  }

  /** What holds before each turn of the main loop. */
  ghost predicate Running<G>(g: Group<G>, h: seq<nat>, sc: seq<Scalar>, pts: seq<G>, sc0: seq<Scalar>, pts0: seq<G>,
                             size: nat, count: nat, limbsize: nat, extended: bool, turned: bool) {
    && 3 <= size <= count <= |sc| && |h| == size && size % 2 == 1 && limbsize < 5
    && IsHeap(h, sc) && Window(sc, size, limbsize)
    && Conserved(g, sc, pts, sc0, pts0, size)
    && Built(count) <= |sc0| && Phase(sc, sc0, size, count, limbsize, extended, turned)
  }

  lemma PhaseStart(sc: seq<Scalar>, count: nat)
    requires Built(count) <= |sc|
    ensures Phase(sc, sc, Built(count), count, 4, false, false)
  {
  }

  /** The 128-bit scalars join: the window and what is conserved extend to all pairs. */
  lemma {:induction false} Joined<G>(g: Group<G>, sc: seq<Scalar>, pts: seq<G>, sc0: seq<Scalar>, pts0: seq<G>,
                                     n: nat, m: nat, limbsize: nat, max: nat)
    requires Conserved(g, sc, pts, sc0, pts0, n) && max < n <= m <= |sc|
    requires 2 <= limbsize < 5 && Window(sc, n, limbsize)
    requires forall i :: n <= i < m ==> Val(sc0[i]) < P128
    requires AtMost128(sc[max]) && Val(sc[max]) > 0 && forall i :: 0 <= i < n ==> Val(sc[i]) <= Val(sc[max])
    ensures Conserved(g, sc, pts, sc0, pts0, m) && Window(sc, m, limbsize) && Below(sc, m)
    ensures GcdAll(Vals(sc0, n)) < P128
  {
    hide *;
    AtMost128Is(sc[max]);
    TailKept(g, sc, pts, sc0, pts0, n, m);
    WindowGrows(sc, n, m, limbsize);
    ConservedExtends(g, sc, pts, sc0, pts0, n, m);
    BelowAll(sc, n, m, max);
    ConservedIs(g, sc, pts, sc0, pts0, n);
    GcdBelow(sc, sc0, n, max);
  }

  lemma BelowAll(sc: seq<Scalar>, n: nat, m: nat, max: nat)
    requires max < n <= m <= |sc| && Val(sc[max]) < P128
    requires forall i :: 0 <= i < n ==> Val(sc[i]) <= Val(sc[max])
    requires forall i :: n <= i < m ==> Val(sc[i]) < P128
    ensures Below(sc, m)
  {
    hide Val;
  }

  lemma {:induction false} GcdBelow(sc: seq<Scalar>, sc0: seq<Scalar>, n: nat, a: nat)
    requires n <= |sc| && n <= |sc0| && a < n && Alike(sc, sc0, n) && Val(sc[a]) > 0
    ensures GcdAll(Vals(sc0, n)) <= Val(sc[a])
  {
    hide Val, GcdAll;
    var c := GcdAll(Vals(sc0, n));
    if c > 0 {
      GcdAllDivisors(Vals(sc0, n), c);
      assert Divides(c, c);
      assert Divides(c, Vals(sc, n)[a]);
      DivisorBound(c, Val(sc[a]));
    }
  }

  lemma ConservedIs<G>(g: Group<G>, sc: seq<Scalar>, pts: seq<G>, sc0: seq<Scalar>, pts0: seq<G>, n: nat)
    requires Conserved(g, sc, pts, sc0, pts0, n)
    ensures n <= |sc| == |sc0| == |pts| == |pts0|
    ensures Sum(g, Terms(g, sc, pts, n)) == Sum(g, Terms(g, sc0, pts0, n)) && Alike(sc, sc0, n)
  {
    hide Sum, Terms, Alike;
  }

  /** The turn lowers the sum of the scalars, and keeps what the loop knows of its phase. */
  lemma {:induction false} Lowers(sc: seq<Scalar>, sc0: seq<Scalar>, n: nat, count: nat, limbsize: nat,
                                  a: nat, b: nat, x: Scalar, extended: bool)
    requires n <= |sc| && a < n && b < n && a != b && limbsize < 5 && Window(sc, n, limbsize)
    requires Val(x) == Val(sc[a]) - Val(sc[b])
    requires Built(count) <= |sc0| && Two(sc0, Built(count))
    requires if extended then n == count && Below(sc, n) && GcdAll(Vals(sc0, Built(count))) < P128
             else n == Built(count) && !AtMost128(sc[a])
    ensures Phase(sc[a := x], sc0, n, count, limbsize, extended, true)
    ensures !IsZero(sc[b]) ==> 0 <= Total(sc[a := x], n) < Total(sc, n)
  {
    hide Val, Total, Two, IsZero, AtMost128, GcdAll, Window, Wide;
    TotalStep(sc, n, a, x);
    TotalStep(sc[a := x], n, a, x);
    SmallIs(sc[b]);
    ValNonnegative(sc[b]);
    AtMost128Is(sc[a]);
    var sc' := sc[a := x];
    if !extended {
      StaysWide(sc, n, limbsize, a, b, x);
      assert Val(sc'[a]) + Val(sc'[b]) >= P128;
    }
  }

  lemma TwoNow(sc: seq<Scalar>, n: nat, a: nat, b: nat)
    requires n <= |sc| && a < n && b < n && a != b && !IsZero(sc[b]) && Val(sc[b]) <= Val(sc[a])
    ensures Two(sc, n) && Val(sc[a]) > 0
  {
    hide Val;
    SmallIs(sc[a]);
    SmallIs(sc[b]);
    ValNonnegative(sc[b]);
  }

  /** What the tests of one turn find out, before anything moves. */
  lemma {:induction false} Found(sc: seq<Scalar>, sc0: seq<Scalar>, n: nat, count: nat, limbsize: nat, a: nat, b: nat,
                                 extended: bool, turned: bool)
    requires n <= |sc| && a < n && b < n && a != b && limbsize < 5 && Window(sc, n, limbsize)
    requires Built(count) <= |sc0| && Phase(sc, sc0, n, count, limbsize, extended, turned)
    requires !IsZero(sc[b]) && forall i :: 0 <= i < n ==> Val(sc[i]) <= Val(sc[a])
    ensures Two(sc0, Built(count)) && Val(sc[a]) > 0
    ensures !extended ==> n == Built(count)
    ensures extended ==> n == count && Below(sc, n) && GcdAll(Vals(sc0, Built(count))) < P128
    ensures sc[a][limbsize] == 0 ==> limbsize > 0 && Window(sc, n, limbsize - 1)
    ensures !extended ==> (if sc[a][limbsize] == 0 then limbsize >= 3 else limbsize >= 2)
  {
    hide Val, Two, IsZero, GcdAll, Window, Heavy, Below;
    TwoNow(sc, n, a, b);
    if sc[a][limbsize] == 0 {
      WindowShrinks(sc, n, limbsize, a);
    }
    if !extended {
      WideEnough(sc, n, limbsize, a);
    }
  }

  /** The body of the main loop, after the test for the last scalar. */
  method Round<G(!new)>(g: Group<G>, heap: array<nat>, scalars: array<Scalar>, points: array<G>, count: nat,
                        size0: nat, limbsize0: nat, extended0: bool, top1: nat, top2: nat,
                        ghost turned: bool, ghost sc0: seq<Scalar>, ghost pts0: seq<G>)
    returns (size: nat, limbsize: nat, extended: bool)
    requires Abelian(g) && points as object != heap && points as object != scalars
    requires count <= heap.Length == scalars.Length == points.Length && count % 2 == 1
    requires |sc0| == scalars.Length && forall i :: Built(count) <= i < count ==> Val(sc0[i]) < P128
    requires size0 <= heap.Length
    requires Running(g, heap[..size0], scalars[..], points[..], sc0, pts0, size0, count, limbsize0, extended0, turned)
    requires top1 == heap[0] && top1 < size0 && top2 < size0 && top1 != top2 && !IsZero(scalars[top2])
    requires forall i :: 0 <= i < size0 ==> Val(scalars[i]) <= Val(scalars[top1])
    modifies heap, scalars, points
    ensures size <= heap.Length
    ensures Running(g, heap[..size], scalars[..], points[..], sc0, pts0, size, count, limbsize, extended, true)
    ensures if extended0 == extended then size == size0
      && 0 <= Total(scalars[..], size) < old(Total(scalars[..], size0))
            else extended
  {
    hide *;
    size, limbsize, extended := size0, limbsize0, extended0;
    var max1, max2 := top1, top2;
    ghost var sc := scalars[..];
    RunningIs(g, heap[..size0], sc, points[..], sc0, pts0, size0, count, limbsize0, extended0, turned);
    Found(sc, sc0, size, count, limbsize, max1, max2, extended, turned);
    if scalars[max1][limbsize] == 0 {
      limbsize := limbsize - 1;
    }
    if !extended && AtMost128(scalars[max1]) {
      Joined(g, sc, points[..], sc0, pts0, size, count, limbsize, max1);
      Grow(heap, scalars, size, count);
      size := count;
      max1, max2 := GetTop2(heap, scalars, size, limbsize);
      extended := true;
    }
    assert scalars[..] == sc;
    var d := Turn(g, heap, scalars, points, size, limbsize, max1, max2, sc0, pts0);
    Lowers(sc, sc0, size, count, limbsize, max1, max2, d, extended);
    RunningBy(g, heap[..size], scalars[..], points[..], sc0, pts0, size, count, limbsize, extended, true);
  }

  lemma RunningIs<G>(g: Group<G>, h: seq<nat>, sc: seq<Scalar>, pts: seq<G>, sc0: seq<Scalar>, pts0: seq<G>,
                     size: nat, count: nat, limbsize: nat, extended: bool, turned: bool)
    requires Running(g, h, sc, pts, sc0, pts0, size, count, limbsize, extended, turned)
    ensures 3 <= size <= count <= |sc| && |h| == size && size % 2 == 1 && limbsize < 5
    ensures IsHeap(h, sc) && Window(sc, size, limbsize) && Conserved(g, sc, pts, sc0, pts0, size)
    ensures Built(count) <= |sc0| && Phase(sc, sc0, size, count, limbsize, extended, turned)
  {
    hide IsHeap, Window, Conserved, Phase, Built;
  }

  lemma RunningBy<G>(g: Group<G>, h: seq<nat>, sc: seq<Scalar>, pts: seq<G>, sc0: seq<Scalar>, pts0: seq<G>,
                     size: nat, count: nat, limbsize: nat, extended: bool, turned: bool)
    requires 3 <= size <= count <= |sc| && |h| == size && size % 2 == 1 && limbsize < 5
    requires IsHeap(h, sc) && Window(sc, size, limbsize) && Conserved(g, sc, pts, sc0, pts0, size)
    requires Built(count) <= |sc0| && Phase(sc, sc0, size, count, limbsize, extended, turned)
    ensures Running(g, h, sc, pts, sc0, pts0, size, count, limbsize, extended, turned)
  {
    hide IsHeap, Window, Conserved, Phase, Built;
  }

  /** All members but one are zero: the one left is their greatest common divisor. */
  lemma {:induction false} Left(sc: seq<Scalar>, sc0: seq<Scalar>, n: nat, a: nat, b: nat)
    requires n <= |sc| && n <= |sc0| && a < n && b < n && a != b && Alike(sc, sc0, n) && IsZero(sc[b])
    requires forall i :: 0 <= i < n && i != a ==> Val(sc[i]) <= Val(sc[b])
    ensures Val(sc[a]) == GcdAll(Vals(sc0, n)) && AllButOne(sc, n, a)
  {
    hide Val, GcdAll, IsZero;
    SmallIs(sc[b]);
    var s := Vals(sc, n);
    forall i | 0 <= i < n && i != a ensures s[i] == 0 && IsZero(sc[i]) {
      ValNonnegative(sc[i]);
      SmallIs(sc[i]);
    }
    OnlyEntry(s, a, Vals(sc0, n));
  }

  ghost predicate AllButOne(sc: seq<Scalar>, n: nat, a: nat)
    requires n <= |sc|
  {
    forall i :: 0 <= i < n && i != a ==> IsZero(sc[i])
  }

  /** The 128-bit scalars are reached exactly when two members are nonzero and their divisor is small. */
  lemma {:induction false} Exit(sc: seq<Scalar>, sc0: seq<Scalar>, n: nat, count: nat, limbsize: nat, a: nat,
                                extended: bool, turned: bool)
    requires a < n <= |sc| == |sc0| && Built(count) <= |sc0| && Phase(sc, sc0, n, count, limbsize, extended, turned)
    requires AllButOne(sc, n, a) && Val(sc[a]) == GcdAll(Vals(sc0, n))
    ensures extended <==> Two(sc0, Built(count)) && GcdAll(Vals(sc0, Built(count))) < P128
    ensures n == (if extended then count else Built(count)) && (extended ==> Val(sc[a]) < P128)
  {
    hide Val, GcdAll, IsZero, Wide;
    if !extended && turned {
      var i, j :| 0 <= i < n && 0 <= j < n && i != j && Val(sc[i]) + Val(sc[j]) >= P128;
      SmallIs(sc[i]);
      SmallIs(sc[j]);
    }
  }

  /** Whether the 128-bit scalars take part in the sum. */
  ghost predicate Reached(sc: seq<Scalar>, count: nat)
    requires Built(count) <= |sc|
  {
    Two(sc, Built(count)) && GcdAll(Vals(sc, Built(count))) < P128
  }

  lemma BuiltFits(count: nat)
    requires count >= 5
    ensures 3 <= Built(count) < count && Built(count) % 2 == 1
  {
  }

  /**
   * The loop of `ge25519_multi_scalarmult_vartime`. It leaves one scalar, the greatest common divisor
   * of the members, and a point whose product with it is the sum over the members: all pairs once
   * the 128-bit scalars have joined, and only the first half of them before.
   */
  method Reduce<G(!new)>(g: Group<G>, heap: array<nat>, scalars: array<Scalar>, points: array<G>, count: nat)
    returns (max1: nat, ghost members: nat)
    requires Abelian(g) && points as object != heap && points as object != scalars
    requires 5 <= count <= heap.Length == scalars.Length == points.Length && count % 2 == 1
    requires forall i :: Built(count) <= i < count ==> Val(scalars[i]) < P128
    modifies heap, scalars, points
    ensures max1 < scalars.Length && Val(scalars[max1]) >= 0 && Built(count) <= count
    ensures members == if old(Reached(scalars[..], count)) then count else Built(count)
    ensures Times(g, Val(scalars[max1]), points[max1]) == Sum(g, old(Terms(g, scalars[..], points[..], members)))
    ensures Val(scalars[max1]) == GcdAll(old(Vals(scalars[..], members)))
    ensures members == count ==> Val(scalars[max1]) < P128
  {
    hide *;
    ghost var sc0, pts0 := scalars[..], points[..];
    var limbsize: nat, extended: bool, size: nat := 4, false, Built(count);
    BuiltFits(count);
    EmptyHeap(sc0);
    assert heap[..0] == [];
    Grow(heap, scalars, 0, size);
    ConservedStart(g, sc0, pts0, size);
    FullWindows(sc0, size);
    PhaseStart(sc0, count);
    RunningBy(g, heap[..size], scalars[..], points[..], sc0, pts0, size, count, limbsize, extended, false);
    ghost var turned := false;
    var max2;
    while true
      invariant size <= heap.Length
      invariant Running(g, heap[..size], scalars[..], points[..], sc0, pts0, size, count, limbsize, extended, turned)
      decreases !extended, Total(scalars[..], size)
    {
      RunningIs(g, heap[..size], scalars[..], points[..], sc0, pts0, size, count, limbsize, extended, turned);
      max1, max2 := GetTop2(heap, scalars, size, limbsize);
      if IsZero(scalars[max2]) {
        break;
      }
      size, limbsize, extended :=
        Round(g, heap, scalars, points, count, size, limbsize, extended, max1, max2, turned, sc0, pts0);
      turned := true;
    }
    members := size;
    OneLeft(g, scalars[..], points[..], size, max1, max2);
    ConservedIs(g, scalars[..], points[..], sc0, pts0, size);
    Left(scalars[..], sc0, size, max1, max2);
    Exit(scalars[..], sc0, size, count, limbsize, max1, extended, turned);
    ReachedIs(sc0, count);
  }

  lemma ReachedIs(sc: seq<Scalar>, count: nat)
    requires Built(count) <= |sc|
    ensures Reached(sc, count) <==> Two(sc, Built(count)) && GcdAll(Vals(sc, Built(count))) < P128
  {
    hide Two, GcdAll, Vals;
  }

  // ---------- the result ----------

  const P224: nat := 0x1_0000000000000000_0000000000000000_0000000000000000_00000000

  /** The four limbs that are read, and the one that is not. */
  function Read(c: nat): nat {
    c % P224
  }

  function Unread(c: nat): nat {
    c / P224
  }

  /**
   * What the code multiplies the last point by, for a last scalar `c`: `c` itself for 0 and 1.
   * Otherwise the leading bit of the four low limbs is folded in twice. `None` stands for a scan that
   * finds no bit in these limbs and leaves the array.
   */
  function Factor(c: nat): Option<nat> {
    if c <= 1 then Some(c)
    else if Read(c) == 0 then None
    else Some(Pow2(BitLength(Read(c))) + Read(c))
  }

  lemma {:induction false} LowLimbsIs(s: Scalar)
    ensures Val(s) >= 0 && LowLimbs(s) == Read(Val(s))
  {
    ValNonnegative(s);
    assert RPow(4) == P224;
    hide Val, RPow;
    ValTake(s, 4);
    assert s[..5] == s;
    ValBounds(s[..4]);
    DivUnique(Val(s), RPow(4), s[4], Val(s[..4]));
  }

  lemma FactorIs(s: Scalar)
    ensures Val(s) >= 0 && FinalFactor(s) == Factor(Val(s))
  {
    ValNonnegative(s);
    hide Val, LowLimbs, Pow2, BitLength;
    LowLimbsIs(s);
  }

  lemma {:induction false} TopPowers()
    ensures P224 == Pow2(224) == 2 * Pow2(223)
  {
    assert RPow(4) == P224;
    hide *;
    RPowIs(4);
    Pow2Step(223);
  }

  /** Four limbs have at most 224 bits, and 224 of them exactly when the top bit is set. */
  lemma {:induction false} LowLength(low: nat)
    requires 0 < low < P224
    ensures Pow2(BitLength(low)) <= P224
    ensures Pow2(BitLength(low)) == P224 <==> low >= Pow2(223)
  {
    hide *;
    TopPowers();
    BitLengthBound(low);
    Pow2Step(224);
    if BitLength(low) <= 223 {
      Pow2Monotone(BitLength(low), 223);
    } else if BitLength(low) > 224 {
      Pow2Monotone(225, BitLength(low));
    }
  }

  lemma FactorAbove(c: nat)
    requires c > 1
    ensures Factor(c) == if Read(c) == 0 then None else Some(Pow2(BitLength(Read(c))) + Read(c))
  {
    hide Pow2, BitLength, Read;
  }

  /**
   * The multiplication is exact for a last scalar of 0 or 1, and for scalars whose limb 4 is 1 and whose
   * limb 3 has its top bit set: the bit that is folded in twice then stands for the limb that is not read.
   */
  lemma {:induction false} FactorExact(c: nat)
    ensures Factor(c) == Some(c) <==> c <= 1 || 3 * Pow2(223) <= c < 4 * Pow2(223)
  {
    SmallFactor(c);
    SplitAt(c);
    hide *;
    TopPowers();
    if c > 1 {
      FactorAbove(c);
      var low := Read(c);
      if low > 0 {
        LowLength(low);
      }
      ExactIff(c, P224, Unread(c), low, Pow2(BitLength(low)));
    }
  }

  lemma SplitAt(c: nat)
    ensures c == P224 * Unread(c) + Read(c) && Read(c) < P224
  {
  }

  lemma {:induction false} ExactIff(c: nat, p: nat, q: nat, low: nat, x: nat)
    requires c == p * q + low && low < p && p % 2 == 0 && x > 0
    requires low > 0 ==> x <= p && (x == p <==> 2 * low >= p)
    ensures low > 0 && x + low == c <==> 3 * p <= 2 * c < 4 * p
  {
    if q > 1 {
      MulGap(p, q, 1);
    } else if q == 1 {
      assert p * q == p;
    } else {
      assert p * q == 0;
    }
  }

  const TOP: Scalar := [0, 0, 0, 0x80_0000_0000_0000, 1]

  lemma {:induction false} TopIs()
    ensures NatVal(TOP) == 3 * Pow2(223)
  {
    Val5(TOP);
    assert Val(TOP) == P224 + P224 / 2;
    hide *;
    TopPowers();
  }

  /** A last scalar of 3 * 2^223 is multiplied exactly, and a first half with that one scalar leaves it. */
  lemma {:induction false} ExactAbove(c: nat)
    requires c == GcdAll(Vals([TOP, ZERO, ZERO], 3))
    ensures c == 3 * Pow2(223) && Factor(c) == Some(c)
  {
    hide *;
    TopIs();
    OnlyTop(TOP);
    FactorExact(c);
  }

  lemma OnlyTop(top: Scalar)
    ensures GcdAll(Vals([top, ZERO, ZERO], 3)) == NatVal(top)
  {
    SmallIs(ZERO);
    hide GcdAll, Val;
    var v := Vals([top, ZERO, ZERO], 3);
    assert v == [NatVal(top), 0, 0];
    OnlyEntry(v, 0, v);
  }

  lemma {:induction false} FactorBound(c: nat)
    requires c < P224
    ensures Factor(c).Some? && c <= Factor(c).value <= 3 * c
  {
    hide P224, Pow2, BitLength;
    if c > 1 {
      DivUnique(c, P224, 0, c);
      BitLengthBound(c);
    }
  }

  lemma {:induction false} BitLengthBound(c: nat)
    requires c > 0
    ensures c < Pow2(BitLength(c)) <= 2 * c
  {
    BitLengthDef(c);
    BitLengthDef(0);
    hide *;
    if c > 1 {
      BitLengthBound(c / 2);
      Pow2Step(BitLength(c / 2));
    } else {
      Pow2Step(0);
    }
  }

  lemma BitLengthDef(c: nat)
    ensures BitLength(c) == if c == 0 then 0 else 1 + BitLength(c / 2)
    ensures Pow2(0) == 1
  {
  }

  /**
   * A multiple below the bound is neutral only for points that 8 makes neutral: the group of the curve, whose
   * order is 8 times a prime far above the bound.
   */
  ghost predicate CofactorEight<G(!new)>(g: Group<G>, bound: nat) {
    forall n: nat, x: G :: 0 < n < bound && Times(g, n, x) == g.zero ==> Times(g, 8, x) == g.zero
  }

  lemma EightAt<G(!new)>(g: Group<G>, bound: nat, n: nat, x: G)
    requires CofactorEight(g, bound) && 0 < n < bound && Times(g, n, x) == g.zero
    ensures Times(g, 8, x) == g.zero
  {
  }

  lemma Ranges()
    ensures 0 < P128 < P224
  {
  }

  lemma FactorSmall(c: nat)
    requires 1 < c < P224
    ensures Factor(c) == Some(Pow2(BitLength(c)) + c)
  {
    hide Pow2, BitLength, P224;
    DivUnique(c, P224, 0, c);
  }

  /** Twice a neutral multiple is neutral, and so are all further powers of two. */
  lemma {:induction false} PowersVanish<G(!new)>(g: Group<G>, k: nat, p: G)
    requires Abelian(g) && k >= 3 && Times(g, 8, p) == g.zero
    ensures Times(g, Pow2(k), p) == g.zero
  {
    Eight();
    hide *;
    Pow2Add(k - 3, 3);
    TimesTimes(g, Pow2(k - 3), 8, p);
    TimesZero(g, Pow2(k - 3));
  }

  lemma Eight()
    ensures Pow2(3) == 8 && BitLength(2) == 2 && BitLength(3) == 2 && Pow2(2) == 4
  {
    assert BitLength(1) == 1;
  }

  lemma {:induction false} LongEnough(c: nat)
    requires c >= 4
    ensures BitLength(c) >= 3
  {
    BitLengthBound(c);
    Pow2Step(0); Pow2Step(1);
    hide *;
    if BitLength(c) <= 2 {
      Pow2Monotone(BitLength(c), 2);
    }
  }

  /** With eight times the point neutral, the leading bit folded in twice changes nothing about neutrality. */
  lemma {:induction false} SameBelowEight<G(!new)>(g: Group<G>, c: nat, p: G)
    requires Abelian(g) && 1 < c < P224 && Times(g, 8, p) == g.zero
    ensures Factor(c).Some? && (Times(g, Factor(c).value, p) == g.zero <==> Times(g, c, p) == g.zero)
  {
    hide *;
    FactorSmall(c);
    Eight();
    if c >= 4 {
      LongEnough(c);
      PowersVanish(g, BitLength(c), p);
      TimesAdd(g, Pow2(BitLength(c)), c, p);
      Assoc(g, Times(g, c, p), g.zero, g.zero);
    } else if c == 2 {
      TimesAdd(g, 6, 2, p);
      Assoc(g, Times(g, 6, p), Times(g, 2, p), g.zero);
      Assoc(g, Times(g, 2, p), g.zero, g.zero);
    } else {
      TimesAdd(g, 8, 1, p);
      TimesAdd(g, 7, 1, p);
      TimesTimes(g, 3, 3, p);
      TimesZero(g, 3);
      TimesZero(g, 7);
      TimesDef(g, 0, p);
      Assoc(g, p, g.zero, g.zero);
    }
  }

  /** The neutrality of the result decides the sum, although the result need not be the sum. */
  lemma {:induction false} SameVerdict<G(!new)>(g: Group<G>, c: nat, p: G)
    requires Abelian(g) && CofactorEight(g, 3 * P128) && c < P128
    ensures Factor(c).Some? && (Times(g, Factor(c).value, p) == g.zero <==> Times(g, c, p) == g.zero)
  {
    SmallFactor(c);
    hide *;
    Ranges();
    FactorBound(c);
    var f := Factor(c).value;
    if c > 1 {
      if Times(g, c, p) == g.zero {
        EightAt(g, 3 * P128, c, p);
        SameBelowEight(g, c, p);
      }
      if Times(g, f, p) == g.zero {
        EightAt(g, 3 * P128, f, p);
        SameBelowEight(g, c, p);
      }
    }
  }

  lemma {:induction false} AddsNothing<G(!new)>(g: Group<G>, a: G, b: G)
    requires Abelian(g)
    ensures g.add(a, b) == b <==> a == g.zero
    ensures g.add(b, a) == b <==> a == g.zero
  {
    hide *;
    Assoc(g, b, a, b);
    Assoc(g, a, b, b);
    if g.add(a, b) == b {
      Cancel(g, a, g.zero, b);
    }
  }

  /**
   * For a last scalar above 1 the result is the sum exactly when the leading bit of the four low limbs and
   * the limb that is not read give the same multiple. Below 2^224 that multiple is neutral.
   */
  lemma {:induction false} WholeIff<G(!new)>(g: Group<G>, c: nat, p: G)
    requires Abelian(g) && c > 1
    ensures Factor(c).Some? <==> Read(c) != 0
    ensures Factor(c).Some? ==>
      (Times(g, Factor(c).value, p) == Times(g, c, p)
       <==> Times(g, Pow2(BitLength(Read(c))), p) == Times(g, P224 * Unread(c), p))
  {
    hide *;
    Ranges();
    FactorAbove(c);
    SplitAt(c);
    var low, high := Read(c), P224 * Unread(c);
    if low != 0 {
      var top := Pow2(BitLength(low));
      TimesAdd(g, top, low, p);
      TimesAdd(g, high, low, p);
      if g.add(Times(g, top, p), Times(g, low, p)) == g.add(Times(g, high, p), Times(g, low, p)) {
        Cancel(g, Times(g, top, p), Times(g, high, p), Times(g, low, p));
      }
    }
  }

  lemma SumEmpty<G>(g: Group<G>)
    ensures Sum(g, []) == g.zero
  {
  }

  /** The sum over the heap is the whole sum exactly when the pairs left out add up to nothing. */
  lemma {:induction false} SumSplit<G(!new)>(g: Group<G>, t: seq<G>, n: nat)
    requires Abelian(g) && n <= |t|
    ensures Sum(g, t) == g.add(Sum(g, t[..n]), Sum(g, t[n..]))
    ensures Sum(g, t) == Sum(g, t[..n]) <==> Sum(g, t[n..]) == g.zero
    decreases |t| - n
  {
    hide *;
    var a, b := Sum(g, t[..n]), Sum(g, t[n..]);
    AddsNothing(g, b, a);
    if n == |t| {
      assert t[..n] == t && t[n..] == [];
      SumEmpty(g);
    } else {
      var p, x := t[..|t| - 1], t[|t| - 1];
      SumSplit(g, p, n);
      assert p[..n] == t[..n] && t[n..] == p[n..] + [x] && t == p + [x];
      SumSnoc(g, p, x);
      SumSnoc(g, p[n..], x);
      Assoc(g, a, Sum(g, p[n..]), x);
    }
  }

  /**
   * `ge25519_multi_scalarmult_vartime`. With `c` the greatest common divisor of the members' scalars,
   * the sum over the members is `[c]p` and the result is `[Factor(c)]p`: the sum itself when `c` is at
   * most 1, or in the one range above where the factor is exact. The members are all pairs exactly when
   * `Reached` holds of the input.
   */
  method MultiScalarMult<G(!new)>(g: Group<G>, heap: array<nat>, scalars: array<Scalar>, points: array<G>, count: nat)
    returns (r: Option<G>, ghost members: nat, ghost p: G)
    requires Abelian(g) && points as object != heap && points as object != scalars
    requires 5 <= count <= heap.Length == scalars.Length == points.Length && count % 2 == 1
    requires forall i :: Built(count) <= i < count ==> Val(scalars[i]) < P128
    modifies heap, scalars, points
    ensures Built(count) <= count && members == if old(Reached(scalars[..], count)) then count else Built(count)
    ensures Times(g, GcdAll(old(Vals(scalars[..], members))), p)
      == Sum(g, old(Terms(g, scalars[..], points[..], members)))
    ensures var f := Factor(GcdAll(old(Vals(scalars[..], members))));
            r == if f.Some? then Some(Times(g, f.value, p)) else None
    ensures var c := GcdAll(old(Vals(scalars[..], members)));
            c <= 1 || 3 * Pow2(223) <= c < 4 * Pow2(223)
            ==> r == Some(Sum(g, old(Terms(g, scalars[..], points[..], members))))
    ensures members == count && CofactorEight(g, 3 * P128)
            ==> r.Some? && (r.value == g.zero <==> Sum(g, old(Terms(g, scalars[..], points[..], count))) == g.zero)
  {
    hide *;
    ghost var sc, pts := scalars[..], points[..];
    BuiltFits(count);
    var max1;
    max1, members := Reduce(g, heap, scalars, points, count);
    p := points[max1];
    ghost var c := Val(scalars[max1]);
    FactorIs(scalars[max1]);
    r := FinalMul(g, points[max1], scalars[max1]);
    FactorExact(c);
    if members == count && CofactorEight(g, 3 * P128) {
      SameVerdict(g, c, p);
    }
  }

  lemma SmallFactor(c: nat)
    ensures c <= 1 ==> Factor(c) == Some(c)
  {
  }

  const ZERO: Scalar := [0, 0, 0, 0, 0]
  const ONE: Scalar := [1, 0, 0, 0, 0]

  /** A last scalar of two multiplies by six. */
  lemma TwoGivesSix()
    ensures Factor(2) == Some(6)
  {
    assert BitLength(2) == 2;
  }

  /** With one nonzero scalar in the first half the loop stops at once, and a nonzero one in the second half is lost. */
  lemma {:induction false} SecondHalfLost()
    ensures var sc := [ONE, ZERO, ZERO, ONE, ZERO];
            var t := Terms(Integers, sc, [1, 1, 1, 1, 1], 5);
            Built(5) == 3 && !Reached(sc, 5) && Sum(Integers, t) == 2 && Sum(Integers, t[..3]) == 1
  {
    var sc := [ONE, ZERO, ZERO, ONE, ZERO];
    assert IsZero(sc[1]) && IsZero(sc[2]);
    assert !Two(sc, 3);
    hide GcdAll, Two;
    ExampleTerms();
  }

  lemma {:induction false} ExampleTerms()
    ensures var t := Terms(Integers, [ONE, ZERO, ZERO, ONE, ZERO], [1, 1, 1, 1, 1], 5);
            Sum(Integers, t) == 2 && Sum(Integers, t[..3]) == 1
  {
    SmallIs(ONE);
    SmallIs(ZERO);
    IntegersAbelian();
    TimesSmall(Integers, 1);
    hide Val, Times, Sum;
    var t := Terms(Integers, [ONE, ZERO, ZERO, ONE, ZERO], [1, 1, 1, 1, 1], 5);
    assert t == [1, 0, 0, 1, 0] && t[..3] == [1, 0, 0];
    ExampleSum(1);
  }

  lemma {:induction false} ExampleSum(x: int)
    ensures Sum(Integers, [x, 0, 0]) == x && Sum(Integers, [x, 0, 0, x, 0]) == 2 * x
  {
    hide Sum;
    SumEmpty(Integers);
    SumLast([], x);
    SumLast([x], 0);
    SumLast([x, 0], 0);
    SumLast([x, 0, 0], x);
    SumLast([x, 0, 0, x], 0);
    assert [] + [x] == [x] && [x] + [0] == [x, 0] && [x, 0] + [0] == [x, 0, 0];
    assert [x, 0, 0] + [x] == [x, 0, 0, x] && [x, 0, 0, x] + [0] == [x, 0, 0, x, 0];
  }

  lemma SumLast(t: seq<int>, y: int)
    ensures Sum(Integers, t + [y]) == Sum(Integers, t) + y
  {
    hide Sum;
    SumSnoc(Integers, t, y);
  }
}
