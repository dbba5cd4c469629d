/** The field of secp256k1 in five 52-bit limbs. */
module Field5x52 {
  import opened Words
  import opened Residues

  const R := 0x1000003D10
  const K := 0x1000003D1
  const HALF := 0x8000_0000_0000_0000
  const B56 := 0x100_0000_0000_0000
  const B104 := 0x100000000000000000000000000
  const B156 := 0x1000000000000000000000000000000000000000
  const B208 := 0x10000000000000000000000000000000000000000000000000000
  const B312 := 0x1000000000000000000000000000000000000000000000000000000000000000000000000000000
  const B364 := 0x10000000000000000000000000000000000000000000000000000000000000000000000000000000000000000000
  const B416 := 0x100000000000000000000000000000000000000000000000000000000000000000000000000000000000000000000000000000000
  const B256 := 0x10000000000000000000000000000000000000000000000000000000000000000
  const B260 := 0x100000000000000000000000000000000000000000000000000000000000000000

  type Limbs = s: seq<u64> | |s| == 5 witness [0, 0, 0, 0, 0]

  /** The number five limbs stand for; a limb may exceed its 52 bits. */
  ghost function Value(n: Limbs): nat {
    Sum5(n[0], n[1], n[2], n[3], n[4])
  }

  ghost function Sum5(x0: nat, x1: nat, x2: nat, x3: nat, x4: nat): nat {
    x0 + x1 * B52 + x2 * B104 + x3 * B156 + x4 * B208
  }

  /** The field element the limbs stand for. */
  ghost function Residue(n: Limbs): nat {
    Value(n) % P
  }

  /** What Mul and Sqr demand of an operand. */
  predicate Fits(n: Limbs) {
    n[0] <= B56 && n[1] <= B56 && n[2] <= B56 && n[3] <= B56 && n[4] <= B52
  }

  /** Magnitude m: limbs 0-3 at most 2m(2^52-1), limb 4 at most 2m(2^48-1). */
  predicate Mag(n: Limbs, m: nat) {
    n[0] <= 2 * m * (B52 - 1) && n[1] <= 2 * m * (B52 - 1) && n[2] <= 2 * m * (B52 - 1) && n[3] <= 2 * m * (B52 - 1)
    && n[4] <= 2 * m * (B48 - 1)
  }

  /** The limbs Normalize produces: no excess bits, and a value below P. */
  ghost predicate Canonical(n: Limbs) {
    n[0] < B52 && n[1] < B52 && n[2] < B52 && n[3] < B52 && n[4] < B48 && Value(n) < P
  }

  /** Column k of the schoolbook product, the sum px in the source's comments. */
  ghost function Col(k: nat, a: Limbs, b: Limbs): nat
    requires k <= 8
  {
    match k
    case 0 => Prod(a[0], b[0])
    case 1 => Prod(a[0], b[1]) + Prod(a[1], b[0])
    case 2 => Prod(a[0], b[2]) + Prod(a[1], b[1]) + Prod(a[2], b[0])
    case 3 => Prod(a[0], b[3]) + Prod(a[1], b[2]) + Prod(a[2], b[1]) + Prod(a[3], b[0])
    case 4 => Prod(a[0], b[4]) + Prod(a[1], b[3]) + Prod(a[2], b[2]) + Prod(a[3], b[1]) + Prod(a[4], b[0])
    case 5 => Prod(a[1], b[4]) + Prod(a[2], b[3]) + Prod(a[3], b[2]) + Prod(a[4], b[1])
    case 6 => Prod(a[2], b[4]) + Prod(a[3], b[3]) + Prod(a[4], b[2])
    case 7 => Prod(a[3], b[4]) + Prod(a[4], b[3])
    case 8 => Prod(a[4], b[4])
  }

  lemma ProductsBounded(a: Limbs, b: Limbs)
    requires Fits(a) && Fits(b)
    ensures forall i, j :: 0 <= i < 5 && 0 <= j < 5 ==>
              Prod(a[i], b[j]) <= (if i == 4 then B52 else B56) * (if j == 4 then B52 else B56)
  {
    forall i, j | 0 <= i < 5 && 0 <= j < 5
      ensures Prod(a[i], b[j]) <= (if i == 4 then B52 else B56) * (if j == 4 then B52 else B56)
    {
      ProdBound(a[i], b[j], if i == 4 then B52 else B56, if j == 4 then B52 else B56);
    }
  }

  /** Squaring doubles one factor instead of adding a product twice. */
  lemma ProdDouble(x: nat, y: nat)
    ensures Prod(2 * x, y) == Prod(x, y) + Prod(y, x) && Prod(y, 2 * x) == Prod(x, y) + Prod(y, x)
  {
    ProdIsMul(x, y);
    ProdIsMul(y, x);
    ProdIsMul(2 * x, y);
    ProdIsMul(y, 2 * x);
  }

  class Field {
    var n: Limbs

    constructor (limbs: Limbs)
      ensures n == limbs
    {
      n := limbs;
    }

    method SetInt(a: u64)
      modifies this
      ensures Value(n) == a && (a <= 2 * (B52 - 1) ==> Mag(n, 1))
    {
      n := [a, 0, 0, 0, 0];
    }

    /** Decides the residue only once Normalize has been called. */
    method IsZero() returns (zero: bool)
      ensures Canonical(n) ==> (zero <==> Residue(n) == 0)
    {
      zero := n[0] == 0 && n[1] == 0 && n[2] == 0 && n[3] == 0 && n[4] == 0;
      if Canonical(n) {
        CanonicalUnique(n, [0, 0, 0, 0, 0]);
        ModOf(Value(n), 0, Value(n));
      }
    }

    method Equals(b: Field) returns (equal: bool)
      ensures Canonical(n) && Canonical(b.n) ==> (equal <==> Residue(n) == Residue(b.n))
    {
      equal := n[0] == b.n[0] && n[1] == b.n[1] && n[2] == b.n[2] && n[3] == b.n[3] && n[4] == b.n[4];
      if Canonical(n) && Canonical(b.n) {
        CanonicalUnique(n, b.n);
      }
    }

    /** The magnitudes, ghost parameters here, are the bookkeeping the callers do on paper. */
    method SetAdd(a: Field, ghost m: nat, ghost k: nat)
      requires Mag(n, m) && Mag(a.n, k) && m + k <= 1000
      modifies this
      ensures Mag(n, m + k)
      ensures Value(n) == Value(old(n)) + Value(old(a.n))
    {
      n := [n[0] + a.n[0], n[1] + a.n[1], n[2] + a.n[2], n[3] + a.n[3], n[4] + a.n[4]];
    }

    method MulInt(a: u64, ghost m: nat)
      requires Mag(n, m) && m * a <= 1000
      modifies this
      ensures Mag(n, m * a)
      ensures Value(n) == a * Value(old(n))
    {
      hide Sum5;
      MagScaled(n, a, m);
      Distribute(n[0], n[1], n[2], n[3], n[4], a);
      var r0: u64, r1: u64, r2: u64, r3: u64, r4: u64 := n[0] * a, n[1] * a, n[2] * a, n[3] * a, n[4] * a;
      n := [r0, r1, r2, r3, r4];
    }

    method Negate(r: Field, m: u64)
      requires Mag(n, m) && m <= 1000
      modifies r
      ensures Mag(r.n, m + 1)
      ensures Value(r.n) == 2 * (m + 1) * P - Value(old(n))
    {
      var a := n;
      NegatedFits(a, m);
      hide Mag, Value;
      r.n := [0xFFFFEFFFFFC2F * 2 * (m + 1) - a[0], 0xFFFFFFFFFFFFF * 2 * (m + 1) - a[1], 0xFFFFFFFFFFFFF * 2 * (m + 1) - a[2],
              0xFFFFFFFFFFFFF * 2 * (m + 1) - a[3], 0x0FFFFFFFFFFFF * 2 * (m + 1) - a[4]];
    }

    static method CarryPass(t0: u64, t1: u64, t2: u64, t3: u64, t4: u64, x: u64)
      returns (r0: u64, r1: u64, r2: u64, r3: u64, r4: u64)
      requires t0 <= HALF && t1 <= HALF && t2 <= HALF && t3 <= HALF && t4 < 2 * B48 && x <= 0x10000
      ensures r0 < B52 && r1 < B52 && r2 < B52 && r3 < B52 && r4 <= t4 + 0x1000
      ensures Sum5(r0, r1, r2, r3, r4) == Sum5(t0, t1, t2, t3, t4) + x * K
    {
      r0, r1, r2, r3, r4 := t0, t1, t2, t3, t4;
      r0 := r0 + x * K;
      r1 := r1 + r0 / B52;
      r0 := r0 % B52;
      r2 := r2 + r1 / B52;
      r1 := r1 % B52;
      r3 := r3 + r2 / B52;
      r2 := r2 % B52;
      r4 := r4 + r3 / B52;
      r3 := r3 % B52;
    }

    /** The final reduction: at most one P is left to take away. */
    static method FinalPass(t0: u64, t1: u64, t2: u64, t3: u64, t4: u64) returns (r: Limbs)
      requires t0 < B52 && t1 < B52 && t2 < B52 && t3 < B52 && t4 < B48 + 0x1000
      ensures Canonical(r)
      ensures Value(r) == Sum5(t0, t1, t2, t3, t4) % P
    {
      ComparedWithP(t0, t1, t2, t3, t4);
      var x := t4 / B48;
      var allOnes := t1 == B52 - 1 && t2 == B52 - 1 && t3 == B52 - 1;
      if t4 == B48 - 1 && allOnes && t0 >= 0xFFFFEFFFFFC2F {
        x := 1;
      }
      var r0, r1, r2, r3, r4 := CarryPass(t0, t1, t2, t3, t4, x);
      MaskedTop(r0, r1, r2, r3, r4, x, Sum5(t0, t1, t2, t3, t4));
      r4 := r4 % B48;
      r := [r0, r1, r2, r3, r4];
      ModOf(Sum5(t0, t1, t2, t3, t4), x, Value(r));
    }

    /** Normalize: the canonical limbs of the same residue. */
    method Normalize()
      requires forall i :: 0 <= i < 5 ==> n[i] <= HALF
      modifies this
      ensures Canonical(n)
      ensures Value(n) == Value(old(n)) % P
    {
      var t0, t1, t2, t3, t4 := n[0], n[1], n[2], n[3], n[4];
      SplitTop(t0, t1, t2, t3, t4);
      var x := t4 / B48;
      t4 := t4 % B48;
      t0, t1, t2, t3, t4 := CarryPass(t0, t1, t2, t3, t4, x);
      ModAdd(Sum5(t0, t1, t2, t3, t4), x);
      n := FinalPass(t0, t1, t2, t3, t4);
    }

    /** Columns 3 and 8: the low limb of column 8 comes back multiplied by R = 2^260 mod P. */
    static method MulTop(a: Limbs, b: Limbs) returns (t3: u64, c: U128, d: U128, ghost e0: nat)
      requires Fits(a) && Fits(b)
      ensures t3 < B52 && c.Val() <= B52 && d.Val() <= W64
      ensures Col(8, a, b) == e0 + c.Val() * B52
      ensures Col(3, a, b) + e0 * R == t3 + d.Val() * B52
    {
      ProductsBounded(a, b);
      d := Mul64(a[0], b[3]);
      d := AddMul(d, a[1], b[2]);
      d := AddMul(d, a[2], b[1]);
      d := AddMul(d, a[3], b[0]);
      c := Mul64(a[4], b[4]);
      var low := Low52(c);
      ProdIsMul(low, R);
      d := AddMul(d, low, R);
      c := Rsh52(c);
      t3 := Low52(d);
      d := Rsh52(d);
      e0 := low;
    }

    /** Column 4 and the rest of column 8. */
    static method MulFour(a: Limbs, b: Limbs, c: U128, d0: U128) returns (t4: u64, tx: u64, d: U128)
      requires Fits(a) && Fits(b) && c.Val() <= B52 && d0.Val() <= W64
      ensures t4 < B48 && tx < 16 && d.Val() <= W64
      ensures d0.Val() + Col(4, a, b) + c.Val() * R == t4 + tx * B48 + d.Val() * B52
    {
      ProductsBounded(a, b);
      d := AddMul(d0, a[0], b[4]);
      d := AddMul(d, a[1], b[3]);
      d := AddMul(d, a[2], b[2]);
      d := AddMul(d, a[3], b[1]);
      d := AddMul(d, a[4], b[0]);
      ProdIsMul(c.lo, R);
      d := AddMulWide(d, c, R);
      t4 := Low52(d);
      d := Rsh52(d);
      tx := t4 / B48;
      t4 := t4 % B48;
    }

    /** Columns 5 and 0: what is above 2^256 comes back multiplied by R/16. */
    static method MulLow(a: Limbs, b: Limbs, tx: u64, d0: U128) returns (r0: u64, c: U128, d: U128, ghost u: nat)
      requires Fits(a) && Fits(b) && tx < 16 && d0.Val() <= W64
      ensures r0 < B52 && c.Val() <= W64 && d.Val() <= W64
      ensures (d0.Val() + Col(5, a, b)) * 16 + tx == u + d.Val() * (B52 * 16)
      ensures Col(0, a, b) + u * (R / 16) == r0 + c.Val() * B52
    {
      ProductsBounded(a, b);
      c := Mul64(a[0], b[0]);
      d := AddMul(d0, a[1], b[4]);
      d := AddMul(d, a[2], b[3]);
      d := AddMul(d, a[3], b[2]);
      d := AddMul(d, a[4], b[1]);
      var u0 := Low52(d);
      d := Rsh52(d);
      u0 := u0 * 16 + tx;
      ProdIsMul(u0, R / 16);
      c := AddMul(c, u0, R / 16);
      r0 := Low52(c);
      c := Rsh52(c);
      u := u0;
    }

    /** Columns 6 and 1. */
    static method MulSixOne(a: Limbs, b: Limbs, c0: U128, d0: U128) returns (r1: u64, c: U128, d: U128, ghost e1: nat)
      requires Fits(a) && Fits(b) && c0.Val() <= W64 && d0.Val() <= W64
      ensures r1 < B52 && c.Val() <= W64 && d.Val() <= W64
      ensures d0.Val() + Col(6, a, b) == e1 + d.Val() * B52
      ensures c0.Val() + Col(1, a, b) + e1 * R == r1 + c.Val() * B52
    {
      ProductsBounded(a, b);
      c := AddMul(c0, a[0], b[1]);
      c := AddMul(c, a[1], b[0]);
      d := AddMul(d0, a[2], b[4]);
      d := AddMul(d, a[3], b[3]);
      d := AddMul(d, a[4], b[2]);
      var low := Low52(d);
      ProdIsMul(low, R);
      c := AddMul(c, low, R);
      d := Rsh52(d);
      r1 := Low52(c);
      c := Rsh52(c);
      e1 := low;
    }

    /** Columns 2 and 7. */
    static method MulTwoSeven(a: Limbs, b: Limbs, c0: U128, d0: U128) returns (r2: u64, c: U128, d: U128, ghost e2: nat)
      requires Fits(a) && Fits(b) && c0.Val() <= W64 && d0.Val() <= W64
      ensures r2 < B52 && c.Val() <= W64 && d.Val() <= B56 * 4
      ensures d0.Val() + Col(7, a, b) == e2 + d.Val() * B52
      ensures c0.Val() + Col(2, a, b) + e2 * R == r2 + c.Val() * B52
    {
      ProductsBounded(a, b);
      c := AddMul(c0, a[0], b[2]);
      c := AddMul(c, a[1], b[1]);
      c := AddMul(c, a[2], b[0]);
      d := AddMul(d0, a[3], b[4]);
      d := AddMul(d, a[4], b[3]);
      var low := Low52(d);
      ProdIsMul(low, R);
      c := AddMul(c, low, R);
      d := Rsh52(d);
      r2 := Low52(c);
      c := Rsh52(c);
      e2 := low;
    }

    /** Mul: the product modulo P. r may be this, b or both: b is read before r is first written. */
    method Mul(r: Field, b: Field)
      requires Fits(n) && Fits(b.n)
      modifies r
      ensures Mag(r.n, 1)
      ensures IsProduct(r.n, old(n), old(b.n))
    {
      var a := n;
      var t3, c, d0, e0 := MulTop(a, b.n);
      var t4, tx, d1 := MulFour(a, b.n, c, d0);
      var rn0, c1, d2, u := MulLow(a, b.n, tx, d1);
      var rn1, c2, d3, e1 := MulSixOne(a, b.n, c1, d2);
      var rn2, c3, d4, e2 := MulTwoSeven(a, b.n, c2, d3);
      ghost var p := Columns(a, b.n);
      r.n := r.n[0 := rn0];
      r.n := r.n[1 := rn1];
      r.n := r.n[2 := rn2];
      var rn3, rn4 := MulLast(t3, t4, c3, d4);
      r.n := r.n[3 := rn3];
      r.n := r.n[4 := rn4];
      Combine(p, t3, t4, tx, e0, c.Val(), d0.Val(), d1.Val(), u, rn0, c1.Val(), d2.Val(),
              e1, rn1, c2.Val(), d3.Val(), e2, rn2, c3.Val(), d4.Val(), rn3, rn4);
      ColumnsSuffice(r.n, old(n), old(b.n));
    }

    static method SqrTop(a: Limbs) returns (t3: u64, c: U128, d: U128, ghost e0: nat)
      requires Fits(a)
      ensures t3 < B52 && c.Val() <= B52 && d.Val() <= W64
      ensures Col(8, a, a) == e0 + c.Val() * B52
      ensures Col(3, a, a) + e0 * R == t3 + d.Val() * B52
    {
      ProductsBounded(a, a);
      ProdDouble(a[0], a[3]);
      ProdDouble(a[1], a[2]);
      d := Mul64(a[0] * 2, a[3]);
      d := AddMul(d, a[1] * 2, a[2]);
      c := AddMul(U128(0, 0), a[4], a[4]);
      var low := Low52(c);
      ProdIsMul(low, R);
      d := AddMul(d, low, R);
      c := Rsh52(c);
      t3 := Low52(d);
      d := Rsh52(d);
      e0 := low;
    }

    static method SqrFour(a: Limbs, a4: u64, c: U128, d0: U128) returns (t4: u64, tx: u64, d: U128)
      requires Fits(a) && a4 == a[4] * 2 && c.Val() <= B52 && d0.Val() <= W64
      ensures t4 < B48 && tx < 16 && d.Val() <= W64
      ensures d0.Val() + Col(4, a, a) + c.Val() * R == t4 + tx * B48 + d.Val() * B52
    {
      ProductsBounded(a, a);
      ProdDouble(a[4], a[0]);
      ProdDouble(a[1], a[3]);
      d := AddMul(d0, a[0], a4);
      d := AddMul(d, a[1] * 2, a[3]);
      d := AddMul(d, a[2], a[2]);
      ProdIsMul(c.lo, R);
      d := AddMulWide(d, c, R);
      t4 := Low52(d);
      d := Rsh52(d);
      tx := t4 / B48;
      t4 := t4 % B48;
    }

    static method SqrLow(a: Limbs, a4: u64, tx: u64, d0: U128) returns (r0: u64, c: U128, d: U128, ghost u: nat)
      requires Fits(a) && a4 == a[4] * 2 && tx < 16 && d0.Val() <= W64
      ensures r0 < B52 && c.Val() <= W64 && d.Val() <= W64
      ensures (d0.Val() + Col(5, a, a)) * 16 + tx == u + d.Val() * (B52 * 16)
      ensures Col(0, a, a) + u * (R / 16) == r0 + c.Val() * B52
    {
      ProductsBounded(a, a);
      ProdDouble(a[4], a[1]);
      ProdDouble(a[2], a[3]);
      c := Mul64(a[0], a[0]);
      d := AddMul(d0, a[1], a4);
      d := AddMul(d, a[2] * 2, a[3]);
      var u0 := Low52(d);
      d := Rsh52(d);
      u0 := u0 * 16 + tx;
      ProdIsMul(u0, R / 16);
      c := AddMul(c, u0, R / 16);
      r0 := Low52(c);
      c := Rsh52(c);
      u := u0;
    }

    static method SqrSixOne(a: Limbs, a0: u64, a4: u64, c0: U128, d0: U128) returns (r1: u64, c: U128, d: U128, ghost e1: nat)
      requires Fits(a) && a0 == a[0] * 2 && a4 == a[4] * 2 && c0.Val() <= W64 && d0.Val() <= W64
      ensures r1 < B52 && c.Val() <= W64 && d.Val() <= W64
      ensures d0.Val() + Col(6, a, a) == e1 + d.Val() * B52
      ensures c0.Val() + Col(1, a, a) + e1 * R == r1 + c.Val() * B52
    {
      ProductsBounded(a, a);
      ProdDouble(a[0], a[1]);
      ProdDouble(a[4], a[2]);
      c := AddMul(c0, a0, a[1]);
      d := AddMul(d0, a[2], a4);
      d := AddMul(d, a[3], a[3]);
      var low := Low52(d);
      ProdIsMul(low, R);
      c := AddMul(c, low, R);
      d := Rsh52(d);
      r1 := Low52(c);
      c := Rsh52(c);
      e1 := low;
    }

    static method SqrTwoSeven(a: Limbs, a0: u64, a4: u64, c0: U128, d0: U128) returns (r2: u64, c: U128, d: U128, ghost e2: nat)
      requires Fits(a) && a0 == a[0] * 2 && a4 == a[4] * 2 && c0.Val() <= W64 && d0.Val() <= W64
      ensures r2 < B52 && c.Val() <= W64 && d.Val() <= B56 * 4
      ensures d0.Val() + Col(7, a, a) == e2 + d.Val() * B52
      ensures c0.Val() + Col(2, a, a) + e2 * R == r2 + c.Val() * B52
    {
      ProductsBounded(a, a);
      ProdDouble(a[0], a[2]);
      ProdDouble(a[4], a[3]);
      c := AddMul(c0, a0, a[2]);
      c := AddMul(c, a[1], a[1]);
      d := AddMul(d0, a[3], a4);
      var low := Low52(d);
      ProdIsMul(low, R);
      c := AddMul(c, low, R);
      d := Rsh52(d);
      r2 := Low52(c);
      c := Rsh52(c);
      e2 := low;
    }

    /** Sqr: r.n[0] is written while the upper limbs are still needed, so the limbs are copied first. */
    method Sqr(r: Field)
      requires Fits(n)
      modifies r
      ensures Mag(r.n, 1)
      ensures IsProduct(r.n, old(n), old(n))
    {
      var a := n;
      var t3, c, d0, e0 := SqrTop(a);
      var a4 := a[4] * 2;
      var t4, tx, d1 := SqrFour(a, a4, c, d0);
      var rn0, c1, d2, u := SqrLow(a, a4, tx, d1);
      r.n := r.n[0 := rn0];
      var a0 := a[0] * 2;
      var rn1, c2, d3, e1 := SqrSixOne(a, a0, a4, c1, d2);
      r.n := r.n[1 := rn1];
      var rn2, c3, d4, e2 := SqrTwoSeven(a, a0, a4, c2, d3);
      r.n := r.n[2 := rn2];
      var rn3, rn4 := MulLast(t3, t4, c3, d4);
      r.n := r.n[3 := rn3];
      r.n := r.n[4 := rn4];
      Combine(Columns(a, a), t3, t4, tx, e0, c.Val(), d0.Val(), d1.Val(), u, rn0, c1.Val(), d2.Val(),
              e1, rn1, c2.Val(), d3.Val(), e2, rn2, c3.Val(), d4.Val(), rn3, rn4);
      ColumnsSuffice(r.n, a, a);
    }

    static method MulLast(t3: u64, t4: u64, c: U128, d: U128) returns (r3: u64, r4: u64)
      requires t3 < B52 && t4 < B48 && c.Val() <= W64 && d.Val() <= B56 * 4
      ensures r3 < B52 && t4 <= r4 <= 2 * (B48 - 1)
      ensures c.Val() + t3 + d.Val() * R == r3 + (r4 - t4) * B52
    {
      ProdIsMul(d.lo, R);
      var wide := AddMulWide(U128(0, t3), d, R);
      var sum := Add128(c, wide);
      r3 := Low52(sum);
      sum := Rsh52(sum);
      r4 := sum.lo + t4;
    }
  }

  /** The nine columns of the schoolbook product, and the number they stand for. */
  ghost function Columns(a: Limbs, b: Limbs): (p: seq<nat>) {
    [Col(0, a, b), Col(1, a, b), Col(2, a, b), Col(3, a, b), Col(4, a, b), Col(5, a, b), Col(6, a, b), Col(7, a, b), Col(8, a, b)]
  }

  ghost function ColumnSum(p: seq<nat>): nat
    requires |p| == 9
  {
    p[0] + p[1] * B52 + p[2] * B104 + p[3] * B156 + p[4] * B208 + p[5] * B260 + p[6] * B312 + p[7] * B364 + p[8] * B416
  }

  lemma ProdScaled(x: nat, y: nat, scale: nat)
    ensures x * (y * scale) == Prod(x, y) * scale
  {
    ProdIsMul(x, y);
  }

  lemma MulSum5(x: int, y0: int, y1: int, y2: int, y3: int, y4: int)
    ensures x * (y0 + y1 + y2 + y3 + y4) == x * y0 + x * y1 + x * y2 + x * y3 + x * y4
  {
  }

  lemma Row(x: nat, b: Limbs)
    ensures x * Value(b) == Sum5(Prod(x, b[0]), Prod(x, b[1]), Prod(x, b[2]), Prod(x, b[3]), Prod(x, b[4]))
  {
    MulSum5(x, b[0], b[1] * B52, b[2] * B104, b[3] * B156, b[4] * B208);
    ProdIsMul(x, b[0]);
    ProdScaled(x, b[1], B52);
    ProdScaled(x, b[2], B104);
    ProdScaled(x, b[3], B156);
    ProdScaled(x, b[4], B208);
  }

  lemma Distribute(x0: nat, x1: nat, x2: nat, x3: nat, x4: nat, y: nat)
    ensures Sum5(x0, x1, x2, x3, x4) * y == Sum5(x0 * y, x1 * y, x2 * y, x3 * y, x4 * y)
  {
  }

  lemma ProductColumns(a: Limbs, b: Limbs)
    ensures Value(a) * Value(b) == ColumnSum(Columns(a, b))
  {
    Distribute(a[0], a[1], a[2], a[3], a[4], Value(b));
    Row(a[0], b);
    Row(a[1], b);
    Row(a[2], b);
    Row(a[3], b);
    Row(a[4], b);
  }

  lemma FoldHigh(p3: int, p4: int, p8: int, e0: int, c0: int, t3: int, d0: int, t4: int, tx: int, d1: int)
    requires p8 == e0 + c0 * B52 && p3 + e0 * R == t3 + d0 * B52
    requires d0 + p4 + c0 * R == t4 + tx * B48 + d1 * B52
    ensures p3 * B156 + p4 * B208 + p8 * B416 == t3 * B156 + t4 * B208 + tx * B256 + d1 * B260 + (16 * p8 * B156) * P
  {
  }

  lemma FoldMiddle(p5: int, tx: int, d1: int, u: int, d2: int)
    requires (d1 + p5) * 16 + tx == u + d2 * (B52 * 16)
    ensures tx * B256 + d1 * B260 + p5 * B260 == u * P + u * (R / 16) + d2 * B312
  {
  }

  lemma FoldLow(p6: int, p7: int, d2: int, m: int)
    requires d2 + p6 + p7 * B52 == m
    ensures d2 * B312 + p6 * B312 + p7 * B364 == (16 * B52 * m) * P + m * R * B52
  {
  }

  lemma FoldUp(p0: int, p1: int, p2: int, u: int, r0: int, c1: int, e1: int, r1: int, c2: int, e2: int, r2: int, c3: int,
               t3: int, t4: int, d4: int, r3: int, r4: int)
    requires p0 + u * (R / 16) == r0 + c1 * B52
    requires c1 + p1 + e1 * R == r1 + c2 * B52
    requires c2 + p2 + e2 * R == r2 + c3 * B52
    requires c3 + t3 + d4 * R == r3 + (r4 - t4) * B52
    ensures p0 + p1 * B52 + p2 * B104 + t3 * B156 + t4 * B208 + u * (R / 16) + (e1 + e2 * B52 + d4 * B104) * R * B52
         == r0 + r1 * B52 + r2 * B104 + r3 * B156 + r4 * B208
  {
  }

  /** The stages' equations, scaled to their places, add up to the product less a multiple of P. */
  lemma Combine(p: seq<nat>, t3: nat, t4: nat, tx: nat, e0: nat, c0: nat, d0: nat, d1: nat, u: nat, r0: nat, c1: nat, d2: nat,
                e1: nat, r1: nat, c2: nat, d3: nat, e2: nat, r2: nat, c3: nat, d4: nat, r3: nat, r4: nat)
    requires |p| == 9
    requires p[8] == e0 + c0 * B52
    requires p[3] + e0 * R == t3 + d0 * B52
    requires d0 + p[4] + c0 * R == t4 + tx * B48 + d1 * B52
    requires (d1 + p[5]) * 16 + tx == u + d2 * (B52 * 16)
    requires p[0] + u * (R / 16) == r0 + c1 * B52
    requires d2 + p[6] == e1 + d3 * B52 && c1 + p[1] + e1 * R == r1 + c2 * B52
    requires d3 + p[7] == e2 + d4 * B52 && c2 + p[2] + e2 * R == r2 + c3 * B52
    requires c3 + t3 + d4 * R == r3 + (r4 - t4) * B52
    ensures ColumnSum(p) % P == Sum5(r0, r1, r2, r3, r4) % P
  {
    var m := e1 + e2 * B52 + d4 * B104;
    FoldHigh(p[3], p[4], p[8], e0, c0, t3, d0, t4, tx, d1);
    FoldMiddle(p[5], tx, d1, u, d2);
    FoldLow(p[6], p[7], d2, m);
    FoldUp(p[0], p[1], p[2], u, r0, c1, e1, r1, c2, e2, r2, c3, t3, t4, d4, r3, r4);
    ModAdd(Sum5(r0, r1, r2, r3, r4), 16 * p[8] * B156 + u + 16 * B52 * m);
  }

  lemma ColumnsSuffice(r: Limbs, a: Limbs, b: Limbs)
    requires ColumnSum(Columns(a, b)) % P == Value(r) % P
    ensures IsProduct(r, a, b)
  {
    hide Cong, Columns, ColumnSum;
    ProductColumns(a, b);
    CongIs(Value(r), Value(a) * Value(b));
  }

  /** r stands for the product of a and b modulo P. */
  ghost predicate IsProduct(r: Limbs, a: Limbs, b: Limbs) {
    Cong(Value(r), Value(a) * Value(b))
  }

  lemma ScaledLimb(x: nat, a: nat, m: nat, max: nat)
    requires x <= 2 * m * max && m * a <= 1000
    ensures 0 <= x * a <= 2 * (m * a) * max
  {
    MulBound(x, a, 2 * m * max, a);
    assert 2 * m * max * a == 2 * (m * a) * max;
  }

  lemma MagScaled(n: Limbs, a: nat, m: nat)
    requires Mag(n, m) && m * a <= 1000
    ensures n[0] * a <= 2 * (m * a) * (B52 - 1) && n[1] * a <= 2 * (m * a) * (B52 - 1) && n[2] * a <= 2 * (m * a) * (B52 - 1)
    ensures n[3] * a <= 2 * (m * a) * (B52 - 1) && n[4] * a <= 2 * (m * a) * (B48 - 1)
  {
    ScaledLimb(n[0], a, m, B52 - 1);
    ScaledLimb(n[1], a, m, B52 - 1);
    ScaledLimb(n[2], a, m, B52 - 1);
    ScaledLimb(n[3], a, m, B52 - 1);
    ScaledLimb(n[4], a, m, B48 - 1);
  }

  lemma NegatedFits(a: Limbs, m: nat)
    requires Mag(a, m) && m <= 1000
    ensures a[0] <= 0xFFFFEFFFFFC2F * 2 * (m + 1) < 0x1_0000_0000_0000_0000
    ensures a[1] <= 0xFFFFFFFFFFFFF * 2 * (m + 1) < 0x1_0000_0000_0000_0000 && a[2] <= 0xFFFFFFFFFFFFF * 2 * (m + 1)
    ensures a[3] <= 0xFFFFFFFFFFFFF * 2 * (m + 1) && a[4] <= 0x0FFFFFFFFFFFF * 2 * (m + 1) < 0x1_0000_0000_0000_0000
    ensures var r: Limbs := [0xFFFFEFFFFFC2F * 2 * (m + 1) - a[0], 0xFFFFFFFFFFFFF * 2 * (m + 1) - a[1], 0xFFFFFFFFFFFFF * 2 * (m + 1) - a[2],
                             0xFFFFFFFFFFFFF * 2 * (m + 1) - a[3], 0x0FFFFFFFFFFFF * 2 * (m + 1) - a[4]];
            Mag(r, m + 1) && Value(r) == 2 * (m + 1) * P - Value(a)
  {
  }

  /** The test Normalize makes on the limbs says whether a final subtraction of P is due. */
  lemma ComparedWithP(t0: nat, t1: nat, t2: nat, t3: nat, t4: nat)
    requires t0 < B52 && t1 < B52 && t2 < B52 && t3 < B52 && t4 < B48 + 0x1000
    ensures Sum5(t0, t1, t2, t3, t4) >= P <==>
              t4 >= B48 || (t4 == B48 - 1 && t3 == B52 - 1 && t2 == B52 - 1 && t1 == B52 - 1 && t0 >= 0xFFFFEFFFFFC2F)
    ensures Sum5(t0, t1, t2, t3, t4) < 2 * P
  {
  }

  lemma SplitTop(t0: nat, t1: nat, t2: nat, t3: nat, t4: nat)
    ensures Sum5(t0, t1, t2, t3, t4) == Sum5(t0, t1, t2, t3, t4 % B48) + (t4 / B48) * K + (t4 / B48) * P
  {
  }

  /** Adding K once and dropping bit 256 takes P away. */
  lemma MaskedTop(t0: nat, t1: nat, t2: nat, t3: nat, t4: nat, x: nat, v: nat)
    requires t0 < B52 && t1 < B52 && t2 < B52 && t3 < B52 && x <= 1 && t4 < 2 * B48
    requires Sum5(t0, t1, t2, t3, t4) == v + x * K && v < 2 * P && (x == 1 <==> v >= P)
    ensures Sum5(t0, t1, t2, t3, t4 % B48) == v - x * P
  {
    assert t4 % B48 == if t4 >= B48 then t4 - B48 else t4;
  }

  /** Canonical limbs are unique: equal residues have equal limbs, so Equals decides equality modulo P. */
  lemma CanonicalUnique(a: Limbs, b: Limbs)
    requires Canonical(a) && Canonical(b)
    ensures Value(a) % P == Value(b) % P <==> a == b
  {
    ModOf(Value(a), 0, Value(a));
    ModOf(Value(b), 0, Value(b));
    if Value(a) == Value(b) {
      DigitsUnique(a[0], a[1], a[2], a[3], a[4], b[0], b[1], b[2], b[3], b[4]);
      assert a == [a[0], a[1], a[2], a[3], a[4]] == b;
    }
  }

  lemma LowDigit(x: nat, y: nat, u: nat, v: nat)
    requires x < B52 && y < B52 && x + u * B52 == y + v * B52
    ensures x == y && u == v
  {
  }

  lemma DigitsUnique(a0: nat, a1: nat, a2: nat, a3: nat, a4: nat, b0: nat, b1: nat, b2: nat, b3: nat, b4: nat)
    requires a0 < B52 && a1 < B52 && a2 < B52 && a3 < B52 && b0 < B52 && b1 < B52 && b2 < B52 && b3 < B52
    requires Sum5(a0, a1, a2, a3, a4) == Sum5(b0, b1, b2, b3, b4)
    ensures a0 == b0 && a1 == b1 && a2 == b2 && a3 == b3 && a4 == b4
  {
    LowDigit(a0, b0, a1 + a2 * B52 + a3 * B104 + a4 * B156, b1 + b2 * B52 + b3 * B104 + b4 * B156);
    LowDigit(a1, b1, a2 + a3 * B52 + a4 * B104, b2 + b3 * B52 + b4 * B104);
    LowDigit(a2, b2, a3 + a4 * B52, b3 + b4 * B52);
    LowDigit(a3, b3, a4, b4);
  }

}
