/** The scalars: unbounded integers overwritten in place, as big.Int receivers are. */
module Num {
  import opened Powers

  const ORDER := 0xFFFFFFFFFFFFFFFFFFFFFFFFFFFFFFFEBAAEDCE6AF48A03BBFD25E8CD0364141
  const LAMBDA := 0x5363ad4cc05c30e0a5261c028812645a122e22ea20816678df02967c1b23bd72
  const A1B2 := 0x3086d221a7d46bcde86c90e49284eb15
  const B1 := 0xe4437ed6010e88286f547fa90abfe4c3
  const A2 := 0x0114ca50f7a8e2f3f657c1108d9d44cfd8
  const TWO128 := 0x1_0000_0000_0000_0000_0000_0000_0000_0000

  class Number {
    var v: int

    constructor (x: int)
      ensures v == x
    {
      v := x;
    }

    /**
     * split_exp: this = r1 + r2*LAMBDA modulo the group order, with both halves below 2^128 in absolute value.
     * r1 may be this.
     */
    method SplitExp(r1: Number, r2: Number)
      requires r1 != r2
      modifies r1, r2
      ensures IsSplit(old(v), r1.v, r2.v)
    {
      hide IsSplit;
      ghost var a := v;
      var bnn2 := ORDER / 2;
      var bnc1 := v * A1B2;
      bnc1 := bnc1 + bnn2;
      bnc1 := bnc1 / ORDER;
      var bnc2 := v * B1;
      bnc2 := bnc2 + bnn2;
      bnc2 := bnc2 / ORDER;
      var bnt1 := bnc1 * A1B2;
      var bnt2 := bnc2 * A2;
      bnt1 := bnt1 + bnt2;
      r1.v := v - bnt1;
      bnt1 := bnc1 * B1;
      bnt2 := bnc2 * A1B2;
      r2.v := bnt1 - bnt2;
      SplitCorrect(a, bnc1, bnc2);
    }

    /** split: the low `bits` bits and the rest; rl may be this. */
    method Split(rl: Number, rh: Number, bits: nat)
      requires rl != rh
      modifies rl, rh
      ensures 0 <= rl.v < Pow2(bits)
      ensures old(v) == rl.v + rh.v * Pow2(bits)
    {
      var mask := Lsh1(bits);
      rl.v := v;
      rh.v := rl.v / mask;
      rl.v := rl.v % mask;
    }
  }

  method Lsh1(bits: nat) returns (p: nat)
    ensures p == Pow2(bits)
  {
    p := 1;
    for i := 0 to bits
      invariant p == Pow2(i)
    {
      p := 2 * p;
    }
  }

  /** The halves add up to a modulo the order and fit 128 bits and a sign. */
  ghost predicate IsSplit(a: int, r1: int, r2: int) {
    && (r1 + r2 * LAMBDA - a) % ORDER == 0
    && -TWO128 < r1 < TWO128 && -TWO128 < r2 < TWO128
  }

  lemma SplitCorrect(a: int, c1: int, c2: int)
    requires c1 == (a * A1B2 + ORDER / 2) / ORDER && c2 == (a * B1 + ORDER / 2) / ORDER
    ensures IsSplit(a, a - (c1 * A1B2 + c2 * A2), c1 * B1 - c2 * A1B2)
  {
    HalvesBounded(a, c1, c2);
    HalvesCongruent(a, c1, c2);
  }

  /** c is x/ORDER rounded to nearest. */
  ghost predicate Rounded(c: int, x: int) {
    -(ORDER / 2) <= x - c * ORDER <= ORDER / 2
  }

  lemma RoundedQuotient(x: int)
    ensures Rounded((x + ORDER / 2) / ORDER, x)
  {
  }

  lemma HalvesBounded(a: int, c1: int, c2: int)
    requires c1 == (a * A1B2 + ORDER / 2) / ORDER && c2 == (a * B1 + ORDER / 2) / ORDER
    ensures -TWO128 < a - (c1 * A1B2 + c2 * A2) < TWO128
    ensures -TWO128 < c1 * B1 - c2 * A1B2 < TWO128
  {
    RoundedQuotient(a * A1B2);
    RoundedQuotient(a * B1);
    var e1, e2 := a * A1B2 - c1 * ORDER, a * B1 - c2 * ORDER;
    var r1, r2 := a - (c1 * A1B2 + c2 * A2), c1 * B1 - c2 * A1B2;
    assert ORDER == A1B2 * A1B2 + A2 * B1;
    assert r1 * ORDER == A1B2 * e1 + A2 * e2;
    assert r2 * ORDER == A1B2 * e2 - B1 * e1;
  }

  lemma HalvesCongruent(a: int, c1: int, c2: int)
    ensures (a - (c1 * A1B2 + c2 * A2) + (c1 * B1 - c2 * A1B2) * LAMBDA - a) % ORDER == 0
  {
    var k1, k2 := (A1B2 - B1 * LAMBDA) / ORDER, (A2 + A1B2 * LAMBDA) / ORDER;
    assert A1B2 - B1 * LAMBDA == k1 * ORDER && A2 + A1B2 * LAMBDA == k2 * ORDER;
    Lattice(a, c1, c2, A1B2, B1, A2, LAMBDA, k1, k2, ORDER);
    Multiple(-(c1 * k1) - c2 * k2);
  }

  /** (A1B2, -B1) and (A2, A1B2) are vectors of the lattice of pairs (x, y) with x + y*LAMBDA = 0. */
  lemma Lattice(a: int, c1: int, c2: int, u: int, v: int, w: int, l: int, k1: int, k2: int, n: int)
    requires u - v * l == k1 * n && w + u * l == k2 * n
    ensures a - (c1 * u + c2 * w) + (c1 * v - c2 * u) * l - a == (-(c1 * k1) - c2 * k2) * n
  {
    assert (c1 * v - c2 * u) * l == c1 * (v * l) - c2 * (u * l);
    assert c1 * (u - v * l) == c1 * (k1 * n);
    assert c2 * (w + u * l) == c2 * (k2 * n);
  }

  lemma Multiple(k: int)
    ensures (k * ORDER) % ORDER == 0
  {
  }
}
