/** Greatest common divisors of a list, told apart by the numbers that divide them. */
module Divisors {
  function Gcd(a: nat, b: nat): nat
    decreases b
  {
    if b == 0 then a else Gcd(b, a % b)
  }

  /** The greatest common divisor of a list; 0 when every entry is 0. */
  function GcdAll(s: seq<nat>): nat {
    if s == [] then 0 else Gcd(s[0], GcdAll(s[1..]))
  }

  predicate Divides(d: nat, n: nat)
    requires d > 0
  {
    n % d == 0
  }

  ghost predicate Common(d: nat, s: seq<nat>)
    requires d > 0
  {
    forall i :: 0 <= i < |s| ==> Divides(d, s[i])
  }

  lemma MulMod(d: nat, q: int)
    requires d > 0
    ensures (q * d) % d == 0
  {
    var r := (q * d) % d;
    var t := q - (q * d) / d;
    assert r == t * d by {
      assert q * d == d * ((q * d) / d) + r;
      assert t * d == q * d - d * ((q * d) / d);
    }
  }

  lemma DividesTimes(d: nat, a: nat, q: nat)
    requires d > 0 && Divides(d, a)
    ensures Divides(d, a * q)
  {
    var k := a / d;
    assert a == k * d;
    assert a * q == (k * q) * d;
    MulMod(d, k * q);
  }

  lemma DividesSum(d: nat, a: nat, b: nat)
    requires d > 0 && Divides(d, b)
    ensures Divides(d, a + b) <==> Divides(d, a)
  {
    var k := b / d;
    assert b == k * d;
    if Divides(d, a) {
      assert a + b == (a / d + k) * d;
      MulMod(d, a / d + k);
    }
    if Divides(d, a + b) {
      assert a == ((a + b) / d - k) * d;
      MulMod(d, (a + b) / d - k);
    }
  }

  lemma {:induction false} GcdDivisors(a: nat, b: nat, d: nat)
    requires d > 0
    ensures Divides(d, Gcd(a, b)) <==> Divides(d, a) && Divides(d, b)
    decreases b
  {
    if b > 0 {
      GcdDivisors(b, a % b, d);
      if Divides(d, b) {
        DividesTimes(d, b, a / b);
        DividesSum(d, a % b, b * (a / b));
        assert a == a % b + b * (a / b);
      }
    } else {
      assert Divides(d, b);
    }
  }

  /** The divisors of the greatest common divisor are the common divisors. */
  lemma {:induction false} GcdAllDivisors(s: seq<nat>, d: nat)
    requires d > 0
    ensures Divides(d, GcdAll(s)) <==> Common(d, s)
  {
    if s == [] {
      assert Divides(d, 0);
    } else {
      GcdDivisors(s[0], GcdAll(s[1..]), d);
      GcdAllDivisors(s[1..], d);
      assert Common(d, s) <==> Divides(d, s[0]) && Common(d, s[1..]) by {
        assert forall i :: 0 < i < |s| ==> s[i] == s[1..][i - 1];
      }
    }
  }

  lemma DivisorBound(d: nat, n: nat)
    requires d > 0 && Divides(d, n) && n > 0
    ensures d <= n
  {
  }

  /** Numbers with the same divisors are equal. */
  lemma SameDivisors(a: nat, b: nat)
    requires forall d: nat :: d > 0 ==> (Divides(d, a) <==> Divides(d, b))
    ensures a == b
  {
    if a > 0 && b > 0 {
      assert Divides(a, a) && Divides(b, b);
      DivisorBound(a, b);
      DivisorBound(b, a);
    } else if a > 0 {
      assert Divides(a + 1, b);
      DivisorBound(a + 1, a);
    } else if b > 0 {
      assert Divides(b + 1, a);
      DivisorBound(b + 1, b);
    }
  }

  /** A list whose only possible nonzero entry is `s[a]`. */
  lemma {:induction false} OnlyEntry(s: seq<nat>, a: nat, t: seq<nat>)
    requires a < |s| && forall i :: 0 <= i < |s| && i != a ==> s[i] == 0
    requires forall d: nat :: d > 0 ==> (Common(d, s) <==> Common(d, t))
    ensures s[a] == GcdAll(t)
  {
    forall d: nat | d > 0 ensures Divides(d, s[a]) <==> Divides(d, GcdAll(t)) {
      GcdAllDivisors(t, d);
      if Divides(d, s[a]) {
        assert Common(d, s);
      }
    }
    SameDivisors(s[a], GcdAll(t));
  }
}
