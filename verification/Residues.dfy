/** Congruence modulo the field prime, as a calculus that never unfolds the modulus. */
module Residues {
  const P := 0xFFFFFFFF_FFFFFFFF_FFFFFFFF_FFFFFFFF_FFFFFFFF_FFFFFFFF_FFFFFFFE_FFFFFC2F

  /** x % P, by adding and subtracting P: the solver then never takes the modulus of a product. */
  ghost function Reduce(x: int): int
    decreases if x < 0 then P - x else x
  {
    if x < 0 then Reduce(x + P) else if x < P then x else Reduce(x - P)
  }

  ghost predicate Cong(a: int, b: int) {
    Reduce(a) == Reduce(b)
  }

  lemma {:induction false} ReduceIs(x: int)
    ensures Reduce(x) == x % P
    decreases if x < 0 then P - x else x
  {
    if x < 0 {
      ReduceIs(x + P);
      ModAdd(x, 1);
    } else if x >= P {
      ReduceIs(x - P);
      ModAdd(x, -1);
    }
  }

  lemma CongIs(a: int, b: int)
    ensures Cong(a, b) <==> a % P == b % P
  {
    ReduceIs(a);
    ReduceIs(b);
  }

  lemma ModAdd(x: int, k: int)
    ensures (x + k * P) % P == x % P
  {
  }

  lemma ModOf(v: int, k: int, r: int)
    requires v == r + k * P && 0 <= r < P
    ensures r == v % P
  {
  }

  lemma CongPlus(a: int, k: int)
    ensures Cong(a + k * P, a)
  {
    CongIs(a + k * P, a);
    ModAdd(a, k);
  }

  lemma CongAdd(a: int, b: int, c: int, d: int)
    requires Cong(a, b) && Cong(c, d)
    ensures Cong(a + c, b + d) && Cong(a - c, b - d)
  {
    hide Cong;
    CongIs(a, b);
    CongIs(c, d);
    var k, l := a / P - b / P, c / P - d / P;
    assert a == b + k * P && c == d + l * P;
    CongPlus(b + d, k + l);
    CongPlus(b - d, k - l);
  }

  lemma CongMul(a: int, b: int, c: int, d: int)
    requires Cong(a, b) && Cong(c, d)
    ensures Cong(a * c, b * d)
  {
    hide Cong;
    CongIs(a, b);
    CongIs(c, d);
    var k, l := a / P - b / P, c / P - d / P;
    assert a == b + k * P && c == d + l * P;
    var q := b * l + k * c;
    calc {
      a * c;
      (b + k * P) * c;
      b * c + k * P * c;
      b * (d + l * P) + k * P * c;
      b * d + (b * l + k * c) * P;
    }
    CongPlus(b * d, q);
  }
}
