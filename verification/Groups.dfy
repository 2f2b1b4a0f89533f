/** Abelian groups given by their operations, and multiples of their elements. */
module Groups {

  datatype Group<!G> = Group(zero: G, add: (G, G) -> G, neg: G -> G)

  ghost predicate Abelian<G(!new)>(g: Group<G>) {
    && (forall a: G, b: G :: g.add(a, b) == g.add(b, a))
    && (forall a: G, b: G, c: G :: g.add(g.add(a, b), c) == g.add(a, g.add(b, c)))
    && (forall a: G :: g.add(g.zero, a) == a)
    && (forall a: G :: g.add(g.neg(a), a) == g.zero)
  }

  /** `[n]p` */
  function Times<G>(g: Group<G>, n: nat, p: G): G {
    if n == 0 then g.zero else g.add(p, Times(g, n - 1, p))
  }

  /** `[n]p` for any integer. */
  function Mul<G>(g: Group<G>, n: int, p: G): G {
    if n >= 0 then Times(g, n, p) else g.neg(Times(g, -n, p))
  }

  lemma Assoc<G(!new)>(g: Group<G>, a: G, b: G, c: G)
    requires Abelian(g)
    ensures g.add(g.add(a, b), c) == g.add(a, g.add(b, c))
    ensures g.add(a, b) == g.add(b, a) && g.add(g.zero, a) == a && g.add(a, g.zero) == a
    ensures g.add(g.neg(a), a) == g.zero && g.add(a, g.neg(a)) == g.zero
  {
  }

  /** `(a + b) + (c + d) == (a + c) + (b + d)` */
  lemma Swap4<G(!new)>(g: Group<G>, a: G, b: G, c: G, d: G)
    requires Abelian(g)
    ensures g.add(g.add(a, b), g.add(c, d)) == g.add(g.add(a, c), g.add(b, d))
  {
    hide *;
    Assoc(g, a, b, g.add(c, d));
    Assoc(g, b, c, d);
    Assoc(g, b, c, d);
    Assoc(g, c, b, d);
    Assoc(g, a, c, g.add(b, d));
  }

  lemma {:induction false} Cancel<G(!new)>(g: Group<G>, a: G, b: G, c: G)
    requires Abelian(g) && g.add(a, c) == g.add(b, c)
    ensures a == b
  {
    hide *;
    Assoc(g, a, c, g.neg(c));
    Assoc(g, b, c, g.neg(c));
    Assoc(g, c, c, c);
    Assoc(g, a, a, a);
    Assoc(g, b, b, b);
  }

  lemma {:induction false} TimesDef<G>(g: Group<G>, n: nat, p: G)
    ensures Times(g, 0, p) == g.zero && Times(g, n + 1, p) == g.add(p, Times(g, n, p))
  {
  }

  lemma {:induction false} TimesAdd<G(!new)>(g: Group<G>, m: nat, n: nat, p: G)
    requires Abelian(g)
    ensures Times(g, m + n, p) == g.add(Times(g, m, p), Times(g, n, p))
  {
    hide *;
    TimesDef(g, 0, p);
    if m == 0 {
      Assoc(g, Times(g, n, p), g.zero, g.zero);
    } else {
      TimesAdd(g, m - 1, n, p);
      TimesDef(g, m - 1, p);
      TimesDef(g, m - 1 + n, p);
      Assoc(g, p, Times(g, m - 1, p), Times(g, n, p));
    }
  }

  lemma {:induction false} TimesPlus<G(!new)>(g: Group<G>, n: nat, p: G, q: G)
    requires Abelian(g)
    ensures Times(g, n, g.add(p, q)) == g.add(Times(g, n, p), Times(g, n, q))
  {
    hide *;
    TimesDef(g, 0, p); TimesDef(g, 0, q); TimesDef(g, 0, g.add(p, q));
    if n == 0 {
      Assoc(g, g.zero, g.zero, g.zero);
    } else {
      TimesPlus(g, n - 1, p, q);
      TimesDef(g, n - 1, p); TimesDef(g, n - 1, q); TimesDef(g, n - 1, g.add(p, q));
      Swap4(g, p, q, Times(g, n - 1, p), Times(g, n - 1, q));
    }
  }

  lemma {:induction false} TimesZero<G(!new)>(g: Group<G>, n: nat)
    requires Abelian(g)
    ensures Times(g, n, g.zero) == g.zero
  {
    if n > 0 {
      TimesZero(g, n - 1);
    }
  }

  lemma {:induction false} TimesTimes<G(!new)>(g: Group<G>, m: nat, n: nat, p: G)
    requires Abelian(g)
    ensures Times(g, m * n, p) == Times(g, m, Times(g, n, p))
  {
    hide *;
    TimesDef(g, 0, p); TimesDef(g, 0, Times(g, n, p));
    if m > 0 {
      TimesTimes(g, m - 1, n, p);
      TimesDef(g, m - 1, Times(g, n, p));
      TimesAdd(g, n, (m - 1) * n, p);
      assert m * n == n + (m - 1) * n;
    }
  }

  lemma {:induction false} NegUnique<G(!new)>(g: Group<G>, a: G, b: G)
    requires Abelian(g) && g.add(a, b) == g.zero
    ensures a == g.neg(b)
  {
    hide *;
    Assoc(g, b, b, b);
    Cancel(g, a, g.neg(b), b);
  }

  lemma {:induction false} NegLaws<G(!new)>(g: Group<G>, a: G, b: G)
    requires Abelian(g)
    ensures g.neg(g.zero) == g.zero && g.neg(g.neg(a)) == a
    ensures g.neg(g.add(a, b)) == g.add(g.neg(a), g.neg(b))
  {
    hide *;
    Assoc(g, g.zero, g.zero, g.zero);
    NegUnique(g, g.zero, g.zero);
    Assoc(g, a, b, b);
    Assoc(g, b, b, b);
    NegUnique(g, a, g.neg(a));
    Swap4(g, g.neg(a), g.neg(b), a, b);
    NegUnique(g, g.add(g.neg(a), g.neg(b)), g.add(a, b));
  }

  lemma {:induction false} MulStep<G(!new)>(g: Group<G>, n: int, p: G)
    requires Abelian(g)
    ensures Mul(g, n + 1, p) == g.add(Mul(g, n, p), p) && Mul(g, 0, p) == g.zero
  {
    MulIs(g, 0, p);
    MulIs(g, n, p);
    MulIs(g, n + 1, p);
    hide *;
    TimesDef(g, 0, p);
    if n >= 0 {
      TimesDef(g, n, p);
      Assoc(g, p, Times(g, n, p), p);
    } else {
      var k := -n - 1;
      TimesDef(g, k, p);
      var t := Times(g, k, p);
      NegLaws(g, p, t);
      Assoc(g, g.neg(t), g.neg(p), p);
      Assoc(g, g.neg(p), g.neg(t), p);
      Assoc(g, p, p, p);
    }
  }

  lemma MulIs<G>(g: Group<G>, n: int, p: G)
    ensures Mul(g, n, p) == if n >= 0 then Times(g, n, p) else g.neg(Times(g, -n, p))
  {
  }

  lemma {:induction false} MulAdd<G(!new)>(g: Group<G>, m: int, n: int, p: G)
    requires Abelian(g)
    ensures Mul(g, m + n, p) == g.add(Mul(g, m, p), Mul(g, n, p))
    decreases if m < 0 then -m else m
  {
    hide *;
    var x := Mul(g, n, p);
    MulStep(g, 0, p);
    if m == 0 {
      Assoc(g, x, x, x);
    } else if m > 0 {
      MulAdd(g, m - 1, n, p);
      MulStep(g, m - 1, p);
      MulStep(g, m - 1 + n, p);
      var y := Mul(g, m - 1, p);
      Assoc(g, y, x, p);
      Assoc(g, y, p, x);
      Assoc(g, x, p, p);
    } else {
      MulAdd(g, m + 1, n, p);
      MulStep(g, m, p);
      MulStep(g, m + n, p);
      var y := Mul(g, m, p);
      Assoc(g, y, x, p);
      Assoc(g, y, p, x);
      Assoc(g, x, p, p);
      Cancel(g, Mul(g, m + n, p), g.add(y, x), p);
    }
  }

  lemma {:induction false} MulNeg<G(!new)>(g: Group<G>, n: int, p: G)
    requires Abelian(g)
    ensures Mul(g, -n, p) == g.neg(Mul(g, n, p))
  {
    hide *;
    MulAdd(g, -n, n, p);
    MulStep(g, 0, p);
    NegUnique(g, Mul(g, -n, p), Mul(g, n, p));
  }

  lemma {:induction false} MulMul<G(!new)>(g: Group<G>, m: int, n: int, p: G)
    requires Abelian(g)
    ensures Mul(g, m * n, p) == Mul(g, m, Mul(g, n, p))
    decreases if m < 0 then -m else m
  {
    hide *;
    var x := Mul(g, n, p);
    MulStep(g, 0, p);
    MulStep(g, 0, x);
    if m > 0 {
      MulMul(g, m - 1, n, p);
      MulStep(g, m - 1, x);
      MulAdd(g, (m - 1) * n, n, p);
      assert m * n == (m - 1) * n + n;
    } else if m < 0 {
      MulMul(g, m + 1, n, p);
      MulStep(g, m, x);
      MulAdd(g, m * n, n, p);
      assert (m + 1) * n == m * n + n;
      Cancel(g, Mul(g, m * n, p), Mul(g, m, x), x);
    }
  }

  lemma {:induction false} MulPlus<G(!new)>(g: Group<G>, n: int, p: G, q: G)
    requires Abelian(g)
    ensures Mul(g, n, g.add(p, q)) == g.add(Mul(g, n, p), Mul(g, n, q))
  {
    hide *;
    var m := if n < 0 then -n else n;
    MulIs(g, n, p);
    MulIs(g, n, q);
    MulIs(g, n, g.add(p, q));
    TimesPlus(g, m, p, q);
    NegLaws(g, Times(g, m, p), Times(g, m, q));
  }
}
