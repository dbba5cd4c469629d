/** Points in Jacobian coordinates. */
module Jacobian {
  import opened Words
  import opened Field5x52
  import opened Residues
  import opened PointFormulas

  // A Field variable of the source is a value: five limbs. These wrappers run its methods on such values.

  method Mul(a: Limbs, b: Limbs) returns (r: Limbs)
    requires Fits(a) && Fits(b)
    ensures Mag(r, 1) && IsProduct(r, a, b)
  {
    var fa := new Field(a);
    var fb := new Field(b);
    fa.Mul(fa, fb);
    r := fa.n;
  }

  method Sqr(a: Limbs) returns (r: Limbs)
    requires Fits(a)
    ensures Mag(r, 1) && IsProduct(r, a, a)
  {
    var fa := new Field(a);
    fa.Sqr(fa);
    r := fa.n;
  }

  method Normalized(a: Limbs) returns (r: Limbs)
    requires Fits(a)
    ensures Canonical(r) && Mag(r, 1) && Value(r) == Value(a) % P
  {
    var fa := new Field(a);
    fa.Normalize();
    r := fa.n;
  }

  method Sum(a: Limbs, b: Limbs, ghost m: nat, ghost k: nat) returns (r: Limbs)
    requires Mag(a, m) && Mag(b, k) && m + k <= 1000
    ensures Mag(r, m + k) && Value(r) == Value(a) + Value(b)
  {
    var fa := new Field(a);
    var fb := new Field(b);
    fa.SetAdd(fb, m, k);
    r := fa.n;
  }

  method Times(a: Limbs, x: u64, ghost m: nat) returns (r: Limbs)
    requires Mag(a, m) && m * x <= 1000
    ensures Mag(r, m * x) && Value(r) == x * Value(a)
  {
    var fa := new Field(a);
    fa.MulInt(x, m);
    r := fa.n;
  }

  method Negated(a: Limbs, m: u64) returns (r: Limbs)
    requires Mag(a, m) && m <= 1000
    ensures Mag(r, m + 1) && Value(r) == 2 * (m + 1) * P - Value(a)
  {
    var fa := new Field(a);
    fa.Negate(fa, m);
    r := fa.n;
  }

  lemma MagFits()
    ensures forall n: Limbs, m: nat :: m <= 8 && Mag(n, m) ==> Fits(n)
    ensures forall n: Limbs, m: nat, k: nat :: m <= k && Mag(n, m) ==> Mag(n, k)
  {
  }

  /** A point of the affine tables. */
  class XY {
    var X: Limbs
    var Y: Limbs
    var Infinity: bool

    ghost predicate Valid()
      reads this
    {
      Mag(X, 6) && Mag(Y, 4)
    }

    ghost function Point(): Jac
      reads this
    {
      Jac(Value(X), Value(Y), 1, Infinity)
    }

    constructor (x: Limbs, y: Limbs, infinity: bool)
      ensures X == x && Y == y && Infinity == infinity
    {
      X, Y, Infinity := x, y, infinity;
    }

    method Neg(r: XY)
      requires Valid()
      modifies r
      ensures r.Valid() && Negates(old(Point()), r.Point())
    {
      hide Mag, Fits, Value, IsProduct, Canonical;
      MagFits();
      r.Infinity := Infinity;
      r.X := X;
      r.Y := Y;
      ghost var y := Value(Y);
      r.Y := Normalized(r.Y);
      ghost var n := Value(r.Y);
      r.Y := Negated(r.Y, 1);
      NegSteps(y, n, Value(r.Y));
    }
  }

  /** The same abscissa and denominator, the opposite ordinate. */
  ghost predicate Negates(a: Jac, r: Jac) {
    r.X == a.X && r.Z == a.Z && r.inf == a.inf && Cong(r.Y, -a.Y)
  }

  lemma NegSteps(y: int, n: int, r: int)
    requires n == y % P && r == 4 * P - n
    ensures Cong(r, -y)
  {
    Lift(r, -y, 4 + y / P, -y);
  }

  class XYZ {
    var X: Limbs
    var Y: Limbs
    var Z: Limbs
    var Infinity: bool

    /** The magnitudes every operation keeps: 6, 4 and 2. */
    ghost predicate Valid()
      reads this
    {
      Mag(X, 6) && Mag(Y, 4) && Mag(Z, 2)
    }

    ghost function Point(): Jac
      reads this
    {
      Jac(Value(X), Value(Y), Value(Z), Infinity)
    }

    constructor ()
      ensures Valid()
    {
      X, Y, Z, Infinity := [0, 0, 0, 0, 0], [0, 0, 0, 0, 0], [0, 0, 0, 0, 0], false;
    }

    method SetXY(a: XY)
      requires a.Valid()
      modifies this
      ensures Valid() && Point() == a.Point()
    {
      Infinity := a.Infinity;
      X := a.X;
      Y := a.Y;
      Z := [1, 0, 0, 0, 0];
    }

    method Assign(a: XYZ)
      modifies this
      ensures X == old(a.X) && Y == old(a.Y) && Z == old(a.Z) && Infinity == old(a.Infinity)
    {
      X, Y, Z, Infinity := a.X, a.Y, a.Z, a.Infinity;
    }

    method Neg(r: XYZ)
      requires Valid()
      modifies r
      ensures r.Valid() && Negates(old(Point()), r.Point())
    {
      hide Mag, Fits, Value, IsProduct, Canonical;
      MagFits();
      ghost var y := Value(Y);
      r.Infinity := Infinity;
      r.X := X;
      r.Y := Y;
      r.Z := Z;
      r.Y := Normalized(r.Y);
      ghost var n := Value(r.Y);
      r.Y := Negated(r.Y, 1);
      NegSteps(y, n, Value(r.Y));
    }

    /** Double, with r possibly this. When the result is infinity the coordinates of r keep their values. */
    method Double(r: XYZ)
      requires Valid() && r.Valid()
      modifies r
      ensures r.Valid()
      ensures DoubleSpec(old(Point()), r.Point())
    {
      hide Mag, Fits, Value, IsProduct, Canonical, Cong, DoubleFormula;
      MagFits();
      ghost var x, y, z := X, Y, Z;
      var t1, t2, t3, t4, t5;
      t5 := Y;
      t5 := Normalized(t5);
      var zero := IsZero(t5);
      NormalizedZero(Value(Y), Value(t5));
      if Infinity || zero {
        r.Infinity := true;
        return;
      }
      r.Z := Mul(t5, Z);
      ghost var z0 := r.Z;
      r.Z := Times(r.Z, 2, 1);
      t1 := Sqr(X);
      ghost var s := t1;
      t1 := Times(t1, 3, 1);
      t2 := Sqr(t1);
      ghost var slope2 := t2;
      t3 := Sqr(t5);
      ghost var q := t3;
      t3 := Times(t3, 2, 1);
      ghost var q2 := t3;
      t4 := Sqr(t3);
      ghost var w := t4;
      t4 := Times(t4, 2, 1);
      t3 := Mul(X, t3);
      ghost var c := t3;
      r.X := t3;
      r.X := Times(r.X, 4, 1);
      r.X := Negated(r.X, 4);
      r.X := Sum(r.X, t2, 5, 1);
      t2 := Negated(t2, 1);
      t3 := Times(t3, 6, 1);
      t3 := Sum(t3, t2, 6, 2);
      r.Y := Mul(t1, t3);
      ghost var m := r.Y;
      t2 := Negated(t4, 2);
      r.Y := Sum(r.Y, t2, 1, 3);
      r.Infinity := false;
      DoubleLimbs(x, y, z, t5, z0, s, t1, slope2, q, q2, w, c, t3, m, r.Point());
    }

    /** Add, with r possibly this or b. */
    method Add(r: XYZ, b: XYZ)
      requires Valid() && b.Valid() && r.Valid()
      modifies r
      ensures r.Valid()
      ensures AddSpec(old(Point()), old(b.Point()), r.Point())
    {
      hide Mag, Fits, Value, IsProduct, Canonical, Cong, DoubleFormula, AddFormula, DoubleSpec, XOver, YOver;
      MagFits();
      if Infinity {
        r.Assign(b);
        return;
      }
      if b.Infinity {
        r.Assign(this);
        return;
      }
      r.Infinity := false;
      ghost var p, q := Point(), b.Point();
      var z22 := Sqr(b.Z);
      var z12 := Sqr(Z);
      var u1 := Mul(X, z22);
      var u2 := Mul(b.X, z12);
      var s1 := Mul(Y, z22);
      ghost var k1 := s1;
      s1 := Mul(s1, b.Z);
      var s2 := Mul(b.Y, z12);
      ghost var k2 := s2;
      s2 := Mul(s2, Z);
      LiftedLimbs(p, X, Y, b.Z, z22, u1, k1, s1);
      LiftedLimbs(q, b.X, b.Y, Z, z12, u2, k2, s2);
      u1 := NormalizedCong(u1, XOver(p, q.Z));
      u2 := NormalizedCong(u2, XOver(q, p.Z));
      var sameX := Equal(u1, u2, XOver(p, q.Z), XOver(q, p.Z));
      if sameX {
        s1 := NormalizedCong(s1, YOver(p, q.Z));
        s2 := NormalizedCong(s2, YOver(q, p.Z));
        var sameY := Equal(s1, s2, YOver(p, q.Z), YOver(q, p.Z));
        if sameY {
          Double(r);
        } else {
          r.Infinity := true;
        }
        return;
      }
      r.Z := Mul(Z, b.Z);
      r.Chord(u1, u2, s1, s2, p, q);
    }

    /** AddXY, addition of an affine point, with r possibly this. */
    method AddXY(r: XYZ, b: XY)
      requires Valid() && b.Valid() && r.Valid()
      modifies r
      ensures r.Valid()
      ensures AddSpec(old(Point()), b.Point(), r.Point())
    {
      hide Mag, Fits, Value, IsProduct, Canonical, Cong, DoubleFormula, AddFormula, DoubleSpec, XOver, YOver;
      MagFits();
      if Infinity {
        r.SetXY(b);
        return;
      }
      if b.Infinity {
        r.Assign(this);
        return;
      }
      r.Infinity := false;
      ghost var p, q := Point(), b.Point();
      UnitDenominator(p);
      var z12 := Sqr(Z);
      var u1 := X;
      u1 := NormalizedCong(u1, XOver(p, q.Z));
      var u2 := Mul(b.X, z12);
      var s1 := Y;
      s1 := NormalizedCong(s1, YOver(p, q.Z));
      var s2 := Mul(b.Y, z12);
      ghost var k2 := s2;
      s2 := Mul(s2, Z);
      LiftedLimbs(q, b.X, b.Y, Z, z12, u2, k2, s2);
      u1 := NormalizedCong(u1, XOver(p, q.Z));
      u2 := NormalizedCong(u2, XOver(q, p.Z));
      var sameX := Equal(u1, u2, XOver(p, q.Z), XOver(q, p.Z));
      if sameX {
        s1 := NormalizedCong(s1, YOver(p, q.Z));
        s2 := NormalizedCong(s2, YOver(q, p.Z));
        var sameY := Equal(s1, s2, YOver(p, q.Z), YOver(q, p.Z));
        if sameY {
          Double(r);
        } else {
          r.Infinity := true;
        }
        return;
      }
      r.Z := Z;
      r.Chord(u1, u2, s1, s2, p, q);
    }

    /** The last steps of Add and AddXY, which the source writes out in both; Z holds the product of the denominators. */
    method Chord(u1: Limbs, u2: Limbs, s1: Limbs, s2: Limbs, ghost p: Jac, ghost q: Jac)
      requires Valid() && !Infinity && Cong(Value(Z), p.Z * q.Z)
      requires Mag(u1, 1) && Mag(u2, 1) && Mag(s1, 1) && Mag(s2, 1)
      requires Cong(Value(u1), XOver(p, q.Z)) && Cong(Value(u2), XOver(q, p.Z))
      requires Cong(Value(s1), YOver(p, q.Z)) && Cong(Value(s2), YOver(q, p.Z))
      modifies this
      ensures Valid() && !Infinity
      ensures AddFormula(XOver(p, q.Z), XOver(q, p.Z), YOver(p, q.Z), YOver(q, p.Z), p.Z, q.Z, Point())
    {
      hide Mag, Fits, Value, IsProduct, Canonical, Cong, AddFormula, XOver, YOver;
      MagFits();
      var h := Negated(u1, 1);
      h := Sum(h, u2, 2, 1);
      var i := Negated(s1, 1);
      i := Sum(i, s2, 2, 1);
      var i2 := Sqr(i);
      var h2 := Sqr(h);
      var h3 := Mul(h, h2);
      ghost var cube, z0 := h3, Z;
      Z := Mul(Z, h);
      var t := Mul(u1, h2);
      X := t;
      X := Times(X, 2, 1);
      X := Sum(X, h3, 2, 1);
      X := Negated(X, 3);
      X := Sum(X, i2, 4, 1);
      Y := Negated(X, 5);
      Y := Sum(Y, t, 6, 1);
      ghost var y0 := Y;
      Y := Mul(Y, i);
      ghost var m := Y;
      h3 := Mul(h3, s1);
      ghost var g := h3;
      h3 := Negated(h3, 1);
      Y := Sum(Y, h3, 1, 2);
      ChordLimbs(p, q, u1, u2, s1, s2, h, i, i2, h2, cube, z0, t, y0, m, g, X, Y, Z);
    }
  }

  method IsZero(a: Limbs) returns (zero: bool)
    requires Canonical(a)
    ensures zero <==> Value(a) == 0
  {
    var fa := new Field(a);
    zero := fa.IsZero();
    ModOf(Value(a), 0, Value(a));
  }

  lemma ChordLimbs(p: Jac, q: Jac, u1: Limbs, u2: Limbs, s1: Limbs, s2: Limbs, h: Limbs, i: Limbs, i2: Limbs, h2: Limbs,
                   h3: Limbs, z0: Limbs, t: Limbs, y0: Limbs, m: Limbs, g: Limbs, X: Limbs, Y: Limbs, Z: Limbs)
    requires Cong(Value(z0), p.Z * q.Z)
    requires Cong(Value(u1), XOver(p, q.Z)) && Cong(Value(u2), XOver(q, p.Z))
    requires Cong(Value(s1), YOver(p, q.Z)) && Cong(Value(s2), YOver(q, p.Z))
    requires Value(h) == 4 * P - Value(u1) + Value(u2) && Value(i) == 4 * P - Value(s1) + Value(s2)
    requires IsProduct(i2, i, i) && IsProduct(h2, h, h) && IsProduct(h3, h, h2) && IsProduct(Z, z0, h) && IsProduct(t, u1, h2)
    requires Value(X) == 8 * P - (2 * Value(t) + Value(h3)) + Value(i2) && Value(y0) == 12 * P - Value(X) + Value(t)
    requires IsProduct(m, y0, i) && IsProduct(g, h3, s1) && Value(Y) == Value(m) + (4 * P - Value(g))
    ensures AddFormula(XOver(p, q.Z), XOver(q, p.Z), YOver(p, q.Z), YOver(q, p.Z), p.Z, q.Z, Jac(Value(X), Value(Y), Value(Z), false))
  {
    hide Value, Cong, XOver, YOver, AddFormula;
    AddSteps(XOver(p, q.Z), XOver(q, p.Z), YOver(p, q.Z), YOver(q, p.Z), p.Z, q.Z,
             Value(u1), Value(u2), Value(s1), Value(s2), Value(i2), Value(h2), Value(h3), Value(z0), Value(t), Value(m), Value(g),
             Jac(Value(X), Value(Y), Value(Z), false));
  }

  lemma LiftedLimbs(a: Jac, x: Limbs, y: Limbs, z: Limbs, zz: Limbs, u: Limbs, s0: Limbs, s: Limbs)
    requires a.X == Value(x) && a.Y == Value(y)
    requires IsProduct(zz, z, z) && IsProduct(u, x, zz) && IsProduct(s0, y, zz) && IsProduct(s, s0, z)
    ensures Cong(Value(u), XOver(a, Value(z))) && Cong(Value(s), YOver(a, Value(z)))
  {
    hide Value, Cong, XOver, YOver;
    Lifted(a, Value(z), Value(zz), Value(u), Value(s0), Value(s));
  }

  lemma DoubleLimbs(x: Limbs, y: Limbs, z: Limbs, n: Limbs, z0: Limbs, s: Limbs, s3: Limbs, t2: Limbs, q: Limbs, q2: Limbs,
                    w: Limbs, t3: Limbs, d: Limbs, m: Limbs, r: Jac)
    requires Cong(Value(n), Value(y)) && IsProduct(z0, n, z) && r.Z == 2 * Value(z0)
    requires IsProduct(s, x, x) && Value(s3) == 3 * Value(s) && IsProduct(t2, s3, s3)
    requires IsProduct(q, n, n) && Value(q2) == 2 * Value(q) && IsProduct(w, q2, q2) && IsProduct(t3, x, q2)
    requires r.X == 10 * P - 4 * Value(t3) + Value(t2)
    requires Value(d) == 6 * Value(t3) + (4 * P - Value(t2)) && IsProduct(m, s3, d)
    requires r.Y == Value(m) + (6 * P - 2 * Value(w))
    ensures DoubleFormula(Value(x), Value(y), Value(z), r)
  {
    hide Value, Cong, DoubleFormula;
    DoubleSteps(Value(x), Value(y), Value(z), Value(n), Value(z0), Value(s), Value(t2), Value(q), Value(w), Value(t3), Value(m), r);
  }

  method NormalizedCong(a: Limbs, ghost v: int) returns (r: Limbs)
    requires Fits(a) && Cong(Value(a), v)
    ensures Canonical(r) && Mag(r, 1) && Cong(Value(r), v)
  {
    hide Fits, Value, Mag, Canonical;
    r := Normalized(a);
    NormalizedZero(Value(a), Value(r));
  }

  /** On canonical limbs Equals decides congruence. */
  method Equal(a: Limbs, b: Limbs, ghost v: int, ghost w: int) returns (same: bool)
    requires Canonical(a) && Canonical(b) && Cong(Value(a), v) && Cong(Value(b), w)
    ensures same <==> Cong(v, w)
  {
    hide Value, Canonical;
    var fa := new Field(a);
    var fb := new Field(b);
    same := fa.Equals(fb);
    CongIs(Value(a), Value(b));
  }

  lemma UnitDenominator(p: Jac)
    ensures Cong(p.X, XOver(p, 1)) && Cong(p.Y, YOver(p, 1)) && Cong(p.Z, p.Z * 1)
  {
  }

  lemma NormalizedZero(y: int, n: int)
    requires n == y % P
    ensures Cong(n, y) && (n == 0 <==> Cong(y, 0))
  {
    CongIs(n, y);
    CongIs(y, 0);
  }
}
