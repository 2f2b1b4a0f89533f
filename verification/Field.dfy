/** Field elements in five limbs of 51 bits: addition, subtraction and negation, with the bounds on the limbs. */
module Field {
  import opened Limbs
  import opened PrimeField

  type Fe = s: seq<u64> | |s| == 5 witness [0, 0, 0, 0, 0]

  function Eval5(a0: int, a1: int, a2: int, a3: int, a4: int): int {
    a0 + 0x8_0000_0000_0000 * (a1 + 0x8_0000_0000_0000 * (a2 + 0x8_0000_0000_0000 * (a3 + 0x8_0000_0000_0000 * a4)))
  }

  function Eval(a: Fe): int {
    Eval5(a[0], a[1], a[2], a[3], a[4])
  }

  /** Every limb is below `m`. */
  predicate Bounded(a: Fe, m: int) {
    a[0] < m && a[1] < m && a[2] < m && a[3] < m && a[4] < m
  }

  /** What products and reduced sums return: barely more than 51 bits. */
  const TIGHT: nat := 0x8_0000_0000_8000

  /** What products accept: 54 bits. */
  const LOOSE: nat := 0x40_0000_0000_0000

  lemma Widen(a: Fe, m: int, n: int)
    requires Bounded(a, m) && m <= n
    ensures Bounded(a, n)
  {
  }

  // ---------- sums ----------

  /** `curve25519_add` and `curve25519_add_after_basic` */
  method Add(a: Fe, b: Fe, ghost m: int, ghost n: int) returns (out: Fe)
    requires Bounded(a, m) && Bounded(b, n) && m + n <= 0x1_0000_0000_0000_0000
    ensures Eval(out) == Eval(a) + Eval(b) && Bounded(out, m + n)
  {
    out := [a[0] + b[0], a[1] + b[1], a[2] + b[2], a[3] + b[3], a[4] + b[4]];
  }

  /** `curve25519_sub`: two multiples of the prime keep the limbs from going below zero. */
  method Sub(a: Fe, b: Fe, ghost m: int) returns (out: Fe)
    requires Bounded(a, m) && m <= LOOSE && Bounded(b, 0xf_ffff_ffff_ffda)
    ensures Cong(Eval(out), Eval(a) - Eval(b)) && Bounded(out, m + 0x10_0000_0000_0000)
  {
    out := [a[0] + 0xf_ffff_ffff_ffda - b[0], a[1] + 0xf_ffff_ffff_fffe - b[1], a[2] + 0xf_ffff_ffff_fffe - b[2],
            a[3] + 0xf_ffff_ffff_fffe - b[3], a[4] + 0xf_ffff_ffff_fffe - b[4]];
    assert Eval(out) == Eval(a) - Eval(b) + P * 2;
    hide *;
    CongBy(Eval(out), Eval(a) - Eval(b), 2);
  }

  /** `curve25519_sub_after_basic`: four multiples, for an operand that is itself a sum. */
  method SubAfterBasic(a: Fe, b: Fe, ghost m: int) returns (out: Fe)
    requires Bounded(a, m) && m <= LOOSE && Bounded(b, 0x1f_ffff_ffff_ffb4)
    ensures Cong(Eval(out), Eval(a) - Eval(b)) && Bounded(out, m + 0x20_0000_0000_0000)
  {
    out := [a[0] + 0x1f_ffff_ffff_ffb4 - b[0], a[1] + 0x1f_ffff_ffff_fffc - b[1], a[2] + 0x1f_ffff_ffff_fffc - b[2],
            a[3] + 0x1f_ffff_ffff_fffc - b[3], a[4] + 0x1f_ffff_ffff_fffc - b[4]];
    assert Eval(out) == Eval(a) - Eval(b) + P * 4;
    hide *;
    CongBy(Eval(out), Eval(a) - Eval(b), 4);
  }

  // ---------- sums that are carried ----------

  lemma {:induction false} CarriedValue(t0: int, t1: int, t2: int, t3: int, t4: int, c0: int, d0: int, c1: int, d1: int,
                                        c2: int, d2: int, c3: int, d3: int, c4: int, d4: int)
    requires t0 == 0x8_0000_0000_0000 * c0 + d0 && t1 + c0 == 0x8_0000_0000_0000 * c1 + d1
      && t2 + c1 == 0x8_0000_0000_0000 * c2 + d2
    requires t3 + c2 == 0x8_0000_0000_0000 * c3 + d3 && t4 + c3 == 0x8_0000_0000_0000 * c4 + d4
    ensures Eval5(t0, t1, t2, t3, t4) == Eval5(d0 + 19 * c4, d1, d2, d3, d4) + P * c4
  {
  }

  /** `t >> 51` and `t & (2^51 - 1)` */
  method Split51(t: u64) returns (c: u64, d: u64)
    ensures t == 0x8_0000_0000_0000 * c + d && d < 0x8_0000_0000_0000
  {
    c, d := t / 0x8_0000_0000_0000, t % 0x8_0000_0000_0000;
  }

  /** One pass of carries over five sums; what leaves the top limb comes back at the bottom times 19. */
  method CarryPass(t0: u64, t1: u64, t2: u64, t3: u64, t4: u64) returns (out: Fe)
    requires t0 < 0x100_0000_0000_0000 && t1 < 0x100_0000_0000_0000 && t2 < 0x100_0000_0000_0000
    requires t3 < 0x100_0000_0000_0000 && t4 < 0x100_0000_0000_0000
    ensures Cong(Eval(out), Eval5(t0, t1, t2, t3, t4)) && Bounded(out, TIGHT)
  {
    var c0, d0 := Split51(t0);
    var c1, d1 := Split51(t1 + c0);
    var c2, d2 := Split51(t2 + c1);
    var c3, d3 := Split51(t3 + c2);
    var c4, d4 := Split51(t4 + c3);
    out := [d0 + c4 * 19, d1, d2, d3, d4];
    assert Bounded(out, TIGHT);
    assert Eval(out) == Eval5(d0 + 19 * c4, d1, d2, d3, d4);
    hide *;
    CarriedValue(t0, t1, t2, t3, t4, c0, d0, c1, d1, c2, d2, c3, d3, c4, d4);
    CongBy(Eval5(t0, t1, t2, t3, t4), Eval(out), c4);
    CongTrans(Eval5(t0, t1, t2, t3, t4), Eval(out), Eval(out));
  }

  /** `curve25519_add_reduce` */
  method AddReduce(a: Fe, b: Fe) returns (out: Fe)
    requires Bounded(a, LOOSE) && Bounded(b, LOOSE)
    ensures Cong(Eval(out), Eval(a) + Eval(b)) && Bounded(out, TIGHT)
  {
    out := CarryPass(a[0] + b[0], a[1] + b[1], a[2] + b[2], a[3] + b[3], a[4] + b[4]);
  }

  /** `curve25519_sub_reduce` */
  method SubReduce(a: Fe, b: Fe) returns (out: Fe)
    requires Bounded(a, LOOSE) && Bounded(b, 0x1f_ffff_ffff_ffb4)
    ensures Cong(Eval(out), Eval(a) - Eval(b)) && Bounded(out, TIGHT)
  {
    var t := SubAfterBasic(a, b, LOOSE);
    out := CarryPass(t[0], t[1], t[2], t[3], t[4]);
    hide *;
    CongTrans(Eval(out), Eval(t), Eval(a) - Eval(b));
  }

  /** `curve25519_neg` */
  method Neg(a: Fe) returns (out: Fe)
    requires Bounded(a, 0xf_ffff_ffff_ffda)
    ensures Cong(Eval(out), -Eval(a)) && Bounded(out, TIGHT)
  {
    var zero: Fe := [0, 0, 0, 0, 0];
    var t := Sub(zero, a, 1);
    out := CarryPass(t[0], t[1], t[2], t[3], t[4]);
    assert Eval(zero) == 0;
    hide *;
    CongTrans(Eval(out), Eval(t), -Eval(a));
  }
}
