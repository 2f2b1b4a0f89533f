/** `ge25519_double_scalarmult_vartime`: two scalar multiplications in one pass over the recoded digits. */
module DoubleScalarMult {
  import opened Binary
  import opened Digits
  import opened Limbs
  import opened Groups
  import opened Expansion
  import opened SlidingWindow

  /** Entry `i` is the odd multiple `2i + 1`. */
  ghost predicate OddMultiples<G>(g: Group<G>, table: seq<G>, p: G) {
    forall i :: 0 <= i < |table| ==> table[i] == Mul(g, 2 * i + 1, p)
  }

  function Abs(x: int): nat {
    if x < 0 then -x else x
  }

  lemma {:induction false} EntryIs<G(!new)>(g: Group<G>, table: seq<G>, p: G, d: int, w: nat)
    requires Abelian(g) && OddMultiples(g, table, p) && w >= 2 && |table| == Pow2(w - 2) && IsDigit(d, w) && d != 0
    ensures Abs(d) / 2 < |table| && table[Abs(d) / 2] == Mul(g, Abs(d), p)
    ensures Mul(g, d, p) == if d < 0 then g.neg(table[Abs(d) / 2]) else table[Abs(d) / 2]
  {
    hide Mul, Abelian, Pow2;
    Pow2Step(w - 2);
    var k := Abs(d) / 2;
    assert Abs(d) == 2 * k + 1;
    MulNeg(g, Abs(d), p);
  }

  /** `pre1`: the odd multiples of `p`, each from the one before. */
  method Precompute<G(!new)>(g: Group<G>, p: G, size: nat) returns (pre: seq<G>)
    requires Abelian(g) && size >= 1
    ensures |pre| == size && OddMultiples(g, pre, p)
  {
    hide Mul, Abelian;
    var d := g.add(p, p);
    pre := [p];
    MulStep(g, 0, p);
    MulStep(g, 1, p);
    Assoc(g, p, p, p);
    for i := 0 to size - 1
      invariant |pre| == i + 1 && OddMultiples(g, pre, p)
    {
      MulAdd(g, 2, 2 * i + 1, p);
      pre := pre + [g.add(d, pre[i])];
    }
  }

  /** Adds the entry of one digit, or its negative. */
  method AddDigit<G(!new)>(g: Group<G>, r: G, table: seq<G>, digit: Schar, ghost p: G, ghost w: nat) returns (t: G)
    requires Abelian(g) && OddMultiples(g, table, p) && w >= 2 && |table| == Pow2(w - 2) && IsDigit(digit, w)
    ensures t == g.add(r, Mul(g, digit, p))
  {
    hide Mul, Abelian, Pow2, IsDigit;
    t := r;
    if digit != 0 {
      EntryIs(g, table, p, digit, w);
      var entry := table[Abs(digit) / 2];
      t := g.add(t, if digit < 0 then g.neg(entry) else entry);
    } else {
      MulStep(g, 0, p);
      Assoc(g, r, r, r);
    }
  }

  /** `[x]p + [y]q` */
  function Combined<G>(g: Group<G>, x: int, p: G, y: int, q: G): G {
    g.add(Mul(g, x, p), Mul(g, y, q))
  }

  /** Doubling and adding one digit of each scalar, as Horner's rule. */
  lemma {:induction false} HornerStep<G(!new)>(g: Group<G>, x: int, dx: int, p: G, y: int, dy: int, q: G)
    requires Abelian(g)
    ensures var r := Combined(g, x, p, y, q);
            g.add(g.add(g.add(r, r), Mul(g, dx, p)), Mul(g, dy, q)) == Combined(g, dx + 2 * x, p, dy + 2 * y, q)
  {
    CombinedIs(g, x, p, y, q);
    CombinedIs(g, dx + 2 * x, p, dy + 2 * y, q);
    hide *;
    var a, b, c, d := Mul(g, x, p), Mul(g, y, q), Mul(g, dx, p), Mul(g, dy, q);
    var aa, bb := g.add(a, a), g.add(b, b);
    MulAdd(g, x, x, p);
    MulAdd(g, y, y, q);
    MulAdd(g, 2 * x, dx, p);
    MulAdd(g, 2 * y, dy, q);
    Swap4(g, a, b, a, b);
    Assoc(g, g.add(aa, bb), c, d);
    Swap4(g, aa, bb, c, d);
  }

  lemma CombinedIs<G>(g: Group<G>, x: int, p: G, y: int, q: G)
    ensures Combined(g, x, p, y, q) == g.add(Mul(g, x, p), Mul(g, y, q))
  {
  }

  /** The digits from `i` on, as a number. */
  function Upper(q: seq<int>, i: nat): int
    requires i <= |q|
  {
    Weigh(2, q[i..])
  }

  lemma UpperStep(q: seq<int>, i: nat)
    requires i < |q|
    ensures Upper(q, i) == q[i] + 2 * Upper(q, i + 1)
  {
    WeighStep(2, q[i], q[i + 1..]);
    assert q[i..] == [q[i]] + q[i + 1..];
  }

  lemma UpperEnds(q: seq<int>)
    ensures Upper(q, |q|) == 0 && Upper(q, 0) == Weigh(2, q)
  {
    assert q[0..] == q;
  }

  lemma CombinedZero<G(!new)>(g: Group<G>, p: G, q: G)
    requires Abelian(g)
    ensures Combined(g, 0, p, 0, q) == g.zero
  {
    hide Mul, Abelian;
    MulStep(g, 0, p);
    MulStep(g, 0, q);
    Assoc(g, g.zero, g.zero, g.zero);
  }

  /** One turn of the loop: doubles, then adds the entries of the two digits. */
  method Turn<G(!new)>(g: Group<G>, r: G, pre1: seq<G>, digit1: Schar, multiples: seq<G>, digit2: Schar,
                       ghost x: int, ghost p1: G, ghost y: int, ghost base: G) returns (t: G)
    requires Abelian(g) && |pre1| == 8 && OddMultiples(g, pre1, p1) && |multiples| == 32
      && OddMultiples(g, multiples, base)
    requires IsDigit(digit1, 5) && IsDigit(digit2, 7) && r == Combined(g, x, p1, y, base)
    ensures t == Combined(g, digit1 + 2 * x, p1, digit2 + 2 * y, base)
  {
    hide *;
    TableSizes();
    t := g.add(r, r);
    t := AddDigit(g, t, pre1, digit1, p1, 5);
    t := AddDigit(g, t, multiples, digit2, base, 7);
    HornerStep(g, x, digit1, p1, y, digit2, base);
  }

  lemma TableSizes()
    ensures Pow2(3) == 8 && Pow2(5) == 32
  {
  }

  /**
   * `ge25519_double_scalarmult_vartime`: `[s1]p1 + [s2]base`, with `multiples` the precomputed odd
   * multiples of the base point.
   */
  method DoubleScalarMult<G(!new)>(g: Group<G>, p1: G, s1: Scalar, s2: Scalar, multiples: seq<G>, ghost base: G)
    returns (r: G)
    requires Abelian(g) && Val(s1) <= Pow2(255) && Val(s2) <= Pow2(255)
    requires |multiples| == 32 && OddMultiples(g, multiples, base)
    ensures r == Combined(g, Val(s1), p1, Val(s2), base)
  {
    hide *;
    var slide1, slide2 := new Schar[256], new Schar[256];
    SlidingWindow.SlidingWindow(slide1, s1, 5);
    SlidingWindow.SlidingWindow(slide2, s2, 7);
    ghost var q1, q2 := slide1[..], slide2[..];
    var pre1 := Precompute(g, p1, 8);
    r := g.zero;
    var i := 255;
    UpperEnds(q1);
    UpperEnds(q2);
    while i >= 0 && slide1[i] == 0 && slide2[i] == 0
      invariant -1 <= i <= 255
      invariant Upper(q1, i + 1) == 0 && Upper(q2, i + 1) == 0
      invariant slide1[..] == q1 && slide2[..] == q2
    {
      UpperStep(q1, i);
      UpperStep(q2, i);
      i := i - 1;
    }
    CombinedZero(g, p1, base);
    while i >= 0
      invariant -1 <= i <= 255
      invariant r == Combined(g, Upper(q1, i + 1), p1, Upper(q2, i + 1), base)
      invariant slide1[..] == q1 && slide2[..] == q2
    {
      ghost var x, y := Upper(q1, i + 1), Upper(q2, i + 1);
      r := Turn(g, r, pre1, slide1[i], multiples, slide2[i], x, p1, y, base);
      UpperStep(q1, i);
      UpperStep(q2, i);
      i := i - 1;
    }
  }
}
