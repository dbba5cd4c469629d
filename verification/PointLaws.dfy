/** The laws of point addition, on the affine points that Jacobian coordinates stand for. */
module PointLaws {
  import opened Residues
  import opened PointFormulas
  import opened Jacobian

  ghost predicate IsInverse(v: int, z: int) {
    Cong(v * z, 1)
  }

  ghost predicate Unit(z: int) {
    exists v :: IsInverse(v, z)
  }

  /** p is the point (x, y). */
  ghost predicate At(p: Jac, x: int, y: int) {
    !p.inf && Unit(p.Z) && Affine(p, x, y)
  }

  /** Both are infinity, or both have the same affine coordinates. */
  ghost predicate SamePoint(p: Jac, q: Jac) {
    p.inf == q.inf && (!p.inf ==> (Unit(p.Z) <==> Unit(q.Z)) && forall x, y :: Affine(p, x, y) <==> Affine(q, x, y))
  }

  /** q is p with its denominator multiplied by k. */
  ghost predicate Scaled(p: Jac, q: Jac, k: int) {
    Cong(q.X, p.X * (k * k)) && Cong(q.Y, p.Y * (k * k) * k) && Cong(q.Z, p.Z * k)
  }

  // Inverses.

  lemma ProductUnit(a: int, v: int, b: int, w: int)
    requires IsInverse(v, a) && IsInverse(w, b)
    ensures IsInverse(v * w, a * b)
  {
    hide Cong;
    CongMul(v * a, 1, w * b, 1);
    MulSwap(v, a, w, b);
  }

  lemma UnitCong(a: int, b: int)
    requires Cong(a, b) && Unit(a)
    ensures Unit(b)
  {
    hide Cong;
    var v :| IsInverse(v, a);
    Symm(a, b);
    Scale(b, a, v);
    Trans(v * b, v * a, 1);
    assert IsInverse(v, b);
  }

  /** A unit can be cancelled. */
  lemma Cancel(a: int, b: int, d: int, v: int)
    requires IsInverse(v, d) && Cong(a * d, b * d)
    ensures Cong(a, b)
  {
    hide Cong;
    CongFactor(a * d, b * d, v);
    Undone(a, d, v);
    Undone(b, d, v);
    Symm(a * d * v, a);
    Trans(a, a * d * v, b * d * v);
    Trans(a, b * d * v, b);
  }

  lemma Undone(a: int, d: int, v: int)
    requires IsInverse(v, d)
    ensures Cong(a * d * v, a)
  {
    hide Cong;
    Scale(v * d, 1, a);
    Assoc(a, d, v);
    assert d * v == v * d;
  }

  // Scaling changes the coordinates, but not the point.

  lemma ScaledAffine(p: Jac, q: Jac, k: int, x: int, y: int)
    requires Scaled(p, q, k) && Affine(p, x, y)
    ensures Affine(q, x, y)
  {
    hide Cong;
    var D := p.Z * k;
    CommonDenominator(p, k, x, y);
    CongMul(q.Z, D, q.Z, D);
    Scale(q.Z * q.Z, D * D, x);
    Symm(x * (q.Z * q.Z), x * (D * D));
    Trans(q.X, p.X * (k * k), x * (D * D));
    Trans(q.X, x * (D * D), x * (q.Z * q.Z));
    Scale(q.Z * q.Z, D * D, y);
    CongMul(y * (q.Z * q.Z), y * (D * D), q.Z, D);
    Symm(y * (q.Z * q.Z) * q.Z, y * (D * D) * D);
    Trans(q.Y, p.Y * (k * k) * k, y * (D * D) * D);
    Trans(q.Y, y * (D * D) * D, y * (q.Z * q.Z) * q.Z);
  }

  lemma ScaledBack(p: Jac, q: Jac, k: int, v: int)
    requires Scaled(p, q, k) && IsInverse(v, k)
    ensures Scaled(q, p, v)
  {
    hide Cong;
    ProductUnit(k, v, k, v);
    ProductUnit(k * k, v * v, k, v);
    BackOne(p.X, q.X, k * k, v * v);
    Assoc(p.Y, k * k, k);
    BackOne(p.Y, q.Y, k * k * k, v * v * v);
    Assoc(q.Y, v * v, v);
    BackOne(p.Z, q.Z, k, v);
  }

  lemma BackOne(a: int, b: int, k: int, v: int)
    requires Cong(b, a * k) && IsInverse(v, k)
    ensures Cong(a, b * v)
  {
    hide Cong;
    CongFactor(b, a * k, v);
    Undone(a, k, v);
    Trans(b * v, a * k * v, a);
    Symm(b * v, a);
  }

  lemma ScaledSame(p: Jac, q: Jac, k: int, v: int)
    requires Scaled(p, q, k) && IsInverse(v, k) && p.inf == q.inf
    ensures SamePoint(p, q)
  {
    hide Cong;
    ScaledBack(p, q, k, v);
    forall x, y
      ensures Affine(p, x, y) <==> Affine(q, x, y)
    {
      if Affine(p, x, y) {
        ScaledAffine(p, q, k, x, y);
      }
      if Affine(q, x, y) {
        ScaledAffine(q, p, v, x, y);
      }
    }
    if w :| IsInverse(w, p.Z) {
      ProductUnit(p.Z, w, k, v);
      Symm(q.Z, p.Z * k);
      UnitCong(p.Z * k, q.Z);
    }
    if w :| IsInverse(w, q.Z) {
      VInverse(v, k);
      ProductUnit(q.Z, w, v, k);
      Symm(p.Z, q.Z * v);
      UnitCong(q.Z * v, p.Z);
    }
  }

  lemma VInverse(v: int, k: int)
    requires IsInverse(v, k)
    ensures IsInverse(k, v)
  {
  }

  /** Two sets of coordinates for one point are scaled versions of each other. */
  lemma SameScaled(p: Jac, q: Jac, x: int, y: int) returns (k: int, v: int)
    requires At(p, x, y) && At(q, x, y)
    ensures Scaled(p, q, k) && IsInverse(v, k)
  {
    hide Cong;
    var vp :| IsInverse(vp, p.Z);
    var vq :| IsInverse(vq, q.Z);
    k, v := q.Z * vp, vq * p.Z;
    VInverse(vp, p.Z);
    ProductUnit(q.Z, vq, vp, p.Z);
    Undone(q.Z, p.Z, vp);
    assert p.Z * k == q.Z * p.Z * vp by {
      assert p.Z * (q.Z * vp) == p.Z * q.Z * vp;
    }
    Symm(p.Z * k, q.Z);
    Weight(x, p.X, q.X, p.Z * p.Z, q.Z * q.Z, k * k) by {
      CongMul(q.Z, p.Z * k, q.Z, p.Z * k);
      MulSwap(p.Z, k, p.Z, k);
    }
    Assoc(y, p.Z * p.Z, p.Z);
    Assoc(y, q.Z * q.Z, q.Z);
    Weight(y, p.Y, q.Y, p.Z * p.Z * p.Z, q.Z * q.Z * q.Z, k * k * k) by {
      CongMul(q.Z, p.Z * k, q.Z, p.Z * k);
      MulSwap(p.Z, k, p.Z, k);
      CongMul(q.Z * q.Z, p.Z * p.Z * (k * k), q.Z, p.Z * k);
      MulSwap(p.Z * p.Z, k * k, p.Z, k);
    }
    Assoc(p.Y, k * k, k);
  }

  lemma Weight(x: int, a: int, b: int, m: int, n: int, k: int)
    requires Cong(a, x * m) && Cong(b, x * n) && Cong(n, m * k)
    ensures Cong(b, a * k)
  {
    hide Cong;
    Scale(n, m * k, x);
    Trans(b, x * n, x * (m * k));
    Assoc(x, m, k);
    CongFactor(a, x * m, k);
    Symm(a * k, x * m * k);
    Trans(b, x * m * k, a * k);
  }

  // When a sum is infinity.

  /** Over the common denominator the coordinates of two points are equal just when the affine ones are. */
  lemma Compared(p: Jac, q: Jac, x1: int, y1: int, x2: int, y2: int)
    requires At(p, x1, y1) && At(q, x2, y2)
    ensures Cong(XOver(p, q.Z), XOver(q, p.Z)) <==> Cong(x1, x2)
    ensures Cong(YOver(p, q.Z), YOver(q, p.Z)) <==> Cong(y1, y2)
  {
    hide Cong;
    var D := p.Z * q.Z;
    CommonDenominator(p, q.Z, x1, y1);
    CommonDenominator(q, p.Z, x2, y2);
    assert q.Z * p.Z == D;
    var v :| IsInverse(v, p.Z);
    var w :| IsInverse(w, q.Z);
    ProductUnit(p.Z, v, q.Z, w);
    ProductUnit(D, v * w, D, v * w);
    ProductUnit(D * D, v * w * (v * w), D, v * w);
    SameFactor(XOver(p, q.Z), XOver(q, p.Z), x1, x2, D * D, v * w * (v * w));
    Assoc(y1, D * D, D);
    Assoc(y2, D * D, D);
    SameFactor(YOver(p, q.Z), YOver(q, p.Z), y1, y2, D * D * D, v * w * (v * w) * (v * w));
  }

  lemma SameFactor(u1: int, u2: int, a1: int, a2: int, d: int, v: int)
    requires Cong(u1, a1 * d) && Cong(u2, a2 * d) && IsInverse(v, d)
    ensures Cong(u1, u2) <==> Cong(a1, a2)
  {
    hide Cong;
    Symm(u1, a1 * d);
    Symm(u2, a2 * d);
    if Cong(a1, a2) {
      CongFactor(a1, a2, d);
      Trans(u1, a1 * d, a2 * d);
      Trans(u1, a2 * d, u2);
    }
    if Cong(u1, u2) {
      Trans(a1 * d, u1, u2);
      Trans(a1 * d, u2, a2 * d);
      Cancel(a1, a2, d, v);
    }
  }

  lemma OrdinateZero(p: Jac, x: int, y: int)
    requires At(p, x, y)
    ensures Cong(p.Y, 0) <==> Cong(y, 0)
  {
    hide Cong;
    var v :| IsInverse(v, p.Z);
    ProductUnit(p.Z, v, p.Z, v);
    ProductUnit(p.Z * p.Z, v * v, p.Z, v);
    Assoc(y, p.Z * p.Z, p.Z);
    Refl(0);
    SameFactor(p.Y, 0, y, 0, p.Z * p.Z * p.Z, v * v * v);
  }

  /** Two points add up to infinity exactly when they have one abscissa, and either different ordinates or both zero. */
  lemma InfiniteSum(a: Jac, b: Jac, r: Jac, x1: int, y1: int, x2: int, y2: int)
    requires AddSpec(a, b, r) && At(a, x1, y1) && At(b, x2, y2)
    ensures r.inf <==> Cong(x1, x2) && (!Cong(y1, y2) || Cong(y1, 0))
  {
    hide Cong, Affine, Unit, XOver, YOver, AddFormula, DoubleFormula;
    Compared(a, b, x1, y1, x2, y2);
    OrdinateZero(a, x1, y1);
  }

  lemma OwnOpposite(y: int)
    requires Cong(y, -y)
    ensures Cong(y, 0)
  {
    hide Cong;
    Refl(y);
    CongAdd(y, -y, y, y);
    var half := (P + 1) / 2;
    Scale(y + y, 0, half);
    assert y == half * (y + y) + -y * P;
    Lift(y, half * (y + y), -y, 0);
  }

  /** A point and its opposite add up to infinity. */
  lemma OppositeSum(a: Jac, b: Jac, r: Jac, x: int, y: int)
    requires AddSpec(a, b, r) && At(a, x, y) && At(b, x, -y)
    ensures r.inf
  {
    hide AddSpec, At;
    InfiniteSum(a, b, r, x, y, x, -y);
    if Cong(y, -y) {
      OwnOpposite(y);
    }
  }

  /** Neg gives the opposite point. */
  lemma NegatesPoint(a: Jac, r: Jac, x: int, y: int)
    requires Negates(a, r) && At(a, x, y)
    ensures At(r, x, -y)
  {
    hide Cong;
    var w := a.Z * a.Z;
    Scale(a.Y, y * w * a.Z, -1);
    assert -1 * (y * w * a.Z) == -y * w * a.Z by {
      Assoc(y, w, a.Z);
      Assoc(-y, w, a.Z);
    }
    Trans(r.Y, -a.Y, -y * w * a.Z);
  }

  /** A point and what Neg makes of it add up to infinity. */
  lemma NegatesSum(a: Jac, b: Jac, r: Jac, x: int, y: int)
    requires At(a, x, y) && Negates(a, b) && AddSpec(a, b, r)
    ensures r.inf
  {
    NegatesPoint(a, b, x, y);
    OppositeSum(a, b, r, x, y);
  }

  /** Infinity is neutral, on either side. */
  lemma InfinityNeutral(a: Jac, b: Jac, r: Jac)
    requires AddSpec(a, b, r) && (a.inf || b.inf)
    ensures SamePoint(r, if a.inf then b else a)
  {
  }

  // Doubling.

  lemma Product(a: int, a': int, m: int, b: int, b': int, n: int)
    requires Cong(a', a * m) && Cong(b', b * n)
    ensures Cong(a' * b', a * b * (m * n))
  {
    hide Cong;
    CongMul(a', a * m, b', b * n);
    MulSwap(a, m, b, n);
  }

  lemma Difference(a: int, a': int, b: int, b': int, i: int, j: int, m: int)
    requires Cong(a', a * m) && Cong(b', b * m)
    ensures Cong(i * a' - j * b', (i * a - j * b) * m)
  {
    hide Cong;
    Scale(a', a * m, i);
    Scale(b', b * m, j);
    CongAdd(i * a', i * (a * m), j * b', j * (b * m));
    Assoc(i, a, m);
    Assoc(j, b, m);
    Minus(i * a, j * b, m);
  }

  /** The doubling formula gives the same point whatever the denominator. */
  lemma DoubleScaled(p: Jac, q: Jac, k: int, r: Jac, r': Jac)
    requires Scaled(p, q, k) && DoubleFormula(p.X, p.Y, p.Z, r) && DoubleFormula(q.X, q.Y, q.Z, r')
    ensures Scaled(r, r', k * k * (k * k))
  {
    hide Cong;
    var k2, k3, k4 := k * k, k * k * k, k * k * (k * k);
    var a, b, a', b' := p.X * p.X, p.Y * p.Y, q.X * q.X, q.Y * q.Y;
    Assoc(p.Y, k2, k);
    Product(p.X, q.X, k2, p.X, q.X, k2);
    Product(p.Y, q.Y, k3, p.Y, q.Y, k3);
    Product(p.Y, q.Y, k3, p.Z, q.Z, k);
    assert k3 * k == k4;
    assert Cong(r'.Z, r.Z * k4) by {
      Difference(p.Y * p.Z, q.Y * q.Z, 0, 0, 2, 0, k4) by {
        Refl(0);
      }
      Follow(r.Z, 2 * (p.Y * p.Z), r'.Z, 2 * (q.Y * q.Z), k4);
    }
    var k6, k8 := k3 * k3, k4 * k4;
    Product(p.X, q.X, k2, b, b', k6);
    Product(a, a', k4, a, a', k4);
    assert k2 * k6 == k8 by {
      assert k6 == k2 * k4 by {
        MulSwap(k2, k, k2, k);
      }
      MulSwap(k2, k2, k2, k2);
      Assoc(k2, k2, k4);
    }
    var c, c', d, d' := p.X * b, q.X * b', a * a, a' * a';
    Difference(d, d', c, c', 9, 8, k8);
    Follow(r.X, 9 * d - 8 * c, r'.X, 9 * d' - 8 * c', k8);
    Difference(c, c', d, d', 12, 9, k8);
    Difference(a, a', 0, 0, 3, 0, k4) by {
      Refl(0);
    }
    Product(3 * a, 3 * a', k4, 12 * c - 9 * d, 12 * c' - 9 * d', k8);
    Product(b, b', k6, b, b', k6);
    assert k6 * k6 == k4 * k8 by {
      assert k6 == k2 * k4 by {
        MulSwap(k2, k, k2, k);
      }
      MulSwap(k2, k4, k2, k4);
    }
    var e, e' := 3 * a * (12 * c - 9 * d), 3 * a' * (12 * c' - 9 * d');
    Difference(e, e', b * b, b' * b', 1, 8, k4 * k8);
    Follow(r.Y, e - 8 * (b * b), r'.Y, e' - 8 * (b' * b'), k4 * k8);
    assert r.Y * (k4 * k8) == r.Y * (k4 * k4) * k4 by {
      Assoc(r.Y, k8, k4);
      assert k4 * k8 == k8 * k4;
    }
  }

  lemma Follow(r: int, f: int, r': int, f': int, m: int)
    requires Cong(r, f) && Cong(r', f') && Cong(f', f * m)
    ensures Cong(r', r * m)
  {
    hide Cong;
    CongFactor(r, f, m);
    Symm(r * m, f * m);
    Trans(r', f', f * m);
    Trans(r', f * m, r * m);
  }

  /** Doubling depends on the point alone. */
  lemma SameDouble(a: Jac, b: Jac, r: Jac, r': Jac, x: int, y: int)
    requires At(a, x, y) && At(b, x, y) && DoubleSpec(a, r) && DoubleSpec(b, r')
    ensures SamePoint(r, r')
  {
    hide Cong, Affine, DoubleFormula, Scaled;
    OrdinateZero(a, x, y);
    OrdinateZero(b, x, y);
    if !Cong(y, 0) {
      var k, v := SameScaled(a, b, x, y);
      DoubleScaled(a, b, k, r, r');
      ProductUnit(v, k, v, k) by {
        VInverse(v, k);
      }
      ProductUnit(v * v, k * k, v * v, k * k);
      VInverse(k * k * (k * k), v * v * (v * v));
      ScaledSame(r, r', k * k * (k * k), v * v * (v * v));
    }
  }

  /** A point added to itself is what Double gives, whatever the denominators. */
  lemma SelfSum(a: Jac, b: Jac, r: Jac, d: Jac, x: int, y: int)
    requires At(a, x, y) && At(b, x, y) && AddSpec(a, b, r) && DoubleSpec(b, d)
    ensures SamePoint(r, d)
  {
    hide Cong, Affine, DoubleFormula, AddFormula, DoubleSpec, SamePoint, XOver, YOver;
    Compared(a, b, x, y, x, y);
    Refl(x);
    Refl(y);
    SameDouble(a, b, r, d, x, y);
  }

  // The order of the two points.

  lemma HasAffine(p: Jac) returns (x: int, y: int)
    requires !p.inf && Unit(p.Z)
    ensures At(p, x, y)
  {
    hide Cong;
    var v :| IsInverse(v, p.Z);
    var z := p.Z;
    x, y := p.X * (v * v), p.Y * (v * v * v);
    VInverse(v, z);
    ProductUnit(z, v, z, v);
    ProductUnit(z * z, v * v, z, v);
    Undone(p.X, v * v, z * z);
    Symm(p.X * (v * v) * (z * z), p.X);
    Undone(p.Y, v * v * v, z * z * z);
    Assoc(y, z * z, z);
    Symm(p.Y * (v * v * v) * (z * z * z), p.Y);
  }

  lemma SwapX(u1: int, u2: int, i: int, h: int)
    requires u2 == u1 + h
    ensures -i * -i - -h * -h * -h - 2 * (u2 * (-h * -h)) == i * i - h * h * h - 2 * (u1 * (h * h))
  {
    var v := h * h;
    assert -h * -h == v && -i * -i == i * i;
    assert v * -h == -(v * h);
    assert u2 * v == u1 * v + h * v;
  }

  lemma SwapY(u1: int, u2: int, s1: int, s2: int, i: int, h: int)
    requires u2 == u1 + h && s2 == s1 + i
    ensures -i * (3 * (u2 * (-h * -h)) + -h * -h * -h - -i * -i) - s2 * (-h * -h * -h)
         == -(i * (3 * (u1 * (h * h)) + h * h * h - i * i) - s1 * (h * h * h))
  {
    var v, w := h * h, h * h * h;
    var t := 3 * (u1 * v);
    assert -h * -h == v && -i * -i == i * i;
    assert v * -h == -w;
    assert u2 * v == u1 * v + w;
    assert 3 * (u2 * v) + -w - i * i == t + w - i * i + w;
    assert -i * (t + w - i * i + w) == -(i * (t + w - i * i)) - i * w;
    assert s2 * -w == -(s1 * w) - i * w;
  }

  /** Taking the two points in the other order negates the denominator. */
  lemma ChordSwap(u1: int, u2: int, s1: int, s2: int, z1: int, z2: int, r: Jac, r': Jac)
    requires AddFormula(u1, u2, s1, s2, z1, z2, r) && AddFormula(u2, u1, s2, s1, z2, z1, r')
    ensures Scaled(r, r', -1)
  {
    hide Cong;
    var h, i := u2 - u1, s2 - s1;
    SwapX(u1, u2, i, h);
    SwapY(u1, u2, s1, s2, i, h);
    var x, y, z := i * i - h * h * h - 2 * (u1 * (h * h)), i * (3 * (u1 * (h * h)) + h * h * h - i * i) - s1 * (h * h * h), z1 * z2 * h;
    assert z2 * z1 * -h == z * -1;
    Refl(z * -1);
    Refl(x * 1);
    Refl(y * -1);
    Follow(r.X, x, r'.X, x, 1);
    Follow(r.Y, y, r'.Y, -y, -1);
    Follow(r.Z, z, r'.Z, z2 * z1 * -h, -1);
  }

  /** Addition commutes. */
  lemma Commutes(a: Jac, b: Jac, r: Jac, r': Jac)
    requires AddSpec(a, b, r) && AddSpec(b, a, r')
    requires (a.inf || Unit(a.Z)) && (b.inf || Unit(b.Z))
    ensures SamePoint(r, r')
  {
    hide Cong, Affine, DoubleFormula, AddFormula, DoubleSpec, XOver, YOver, Scaled;
    if !a.inf && !b.inf {
      var x1, y1 := HasAffine(a);
      var x2, y2 := HasAffine(b);
      Compared(a, b, x1, y1, x2, y2);
      Compared(b, a, x2, y2, x1, y1);
      SymmetricPair(x1, x2);
      SymmetricPair(y1, y2);
      if !Cong(x1, x2) {
        ChordSwap(XOver(a, b.Z), XOver(b, a.Z), YOver(a, b.Z), YOver(b, a.Z), a.Z, b.Z, r, r');
        ScaledSame(r, r', -1, -1) by {
          MinusOne();
        }
      } else if Cong(y1, y2) {
        Moved(b, x2, y2, x1, y1);
        SameDouble(a, b, r, r', x1, y1);
      }
    }
  }

  lemma SymmetricPair(a: int, b: int)
    ensures Cong(a, b) <==> Cong(b, a)
  {
  }

  lemma MinusOne()
    ensures IsInverse(-1, -1)
  {
  }

  /** Coordinates matter modulo the prime alone. */
  lemma Moved(p: Jac, x: int, y: int, x': int, y': int)
    requires At(p, x, y) && Cong(x', x) && Cong(y', y)
    ensures At(p, x', y')
  {
    hide Cong;
    var w := p.Z * p.Z;
    CongFactor(x', x, w);
    Symm(x' * w, x * w);
    Trans(p.X, x * w, x' * w);
    CongFactor(y', y, w);
    CongFactor(y' * w, y * w, p.Z);
    Symm(y' * w * p.Z, y * w * p.Z);
    Trans(p.Y, y * w * p.Z, y' * w * p.Z);
  }

  /** A point's affine coordinates are unique. */
  lemma OnePoint(p: Jac, x: int, y: int, x': int, y': int)
    requires At(p, x, y) && At(p, x', y')
    ensures Cong(x, x') && Cong(y, y')
  {
    hide Cong, At;
    Compared(p, p, x, y, x', y');
    Refl(XOver(p, p.Z));
    Refl(YOver(p, p.Z));
  }

  // The chord and the tangent, with the sum a point again.

  /** Two points with different abscissas add up to the third point on their chord, mirrored. */
  lemma ChordPoint(a: Jac, b: Jac, r: Jac, x1: int, y1: int, x2: int, y2: int, w: int)
    requires AddSpec(a, b, r) && At(a, x1, y1) && At(b, x2, y2) && IsInverse(w, x2 - x1)
    ensures var l := w * (y2 - y1); var x3 := l * l - x1 - x2; At(r, x3, l * (x1 - x3) - y1)
  {
    hide Cong, AddFormula, DoubleFormula, DoubleSpec;
    var l, d := w * (y2 - y1), x2 - x1;
    Apart(x1, x2, w);
    Compared(a, b, x1, y1, x2, y2);
    VInverse(w, d);
    Undone(y2 - y1, d, w);
    assert l * d == (y2 - y1) * d * w by {
      Assoc(w, y2 - y1, d);
    }
    ChordLaw(a, b, r, x1, y1, x2, y2, l);
    ChordUnit(a, b, r, x1, y1, x2, y2, w);
  }

  lemma Apart(x1: int, x2: int, w: int)
    requires IsInverse(w, x2 - x1)
    ensures !Cong(x1, x2)
  {
    if Cong(x1, x2) {
      CongAdd(x2, x1, x1, x1);
      Scale(x2 - x1, 0, w);
      Symm(w * (x2 - x1), 1);
      assert false;
    }
  }

  lemma ChordUnit(a: Jac, b: Jac, r: Jac, x1: int, y1: int, x2: int, y2: int, w: int)
    requires AddFormula(XOver(a, b.Z), XOver(b, a.Z), YOver(a, b.Z), YOver(b, a.Z), a.Z, b.Z, r)
    requires At(a, x1, y1) && At(b, x2, y2) && IsInverse(w, x2 - x1)
    ensures Unit(r.Z)
  {
    hide Cong;
    var D, h := a.Z * b.Z, XOver(b, a.Z) - XOver(a, b.Z);
    var va :| IsInverse(va, a.Z);
    var vb :| IsInverse(vb, b.Z);
    var v := va * vb;
    ProductUnit(a.Z, va, b.Z, vb);
    CommonDenominator(a, b.Z, x1, y1);
    CommonDenominator(b, a.Z, x2, y2);
    assert b.Z * a.Z == D;
    CongAdd(XOver(b, a.Z), x2 * (D * D), XOver(a, b.Z), x1 * (D * D));
    Minus(x2, x1, D * D);
    ProductUnit(D, v, D, v);
    ProductUnit(x2 - x1, w, D * D, v * v);
    Symm(h, (x2 - x1) * (D * D));
    UnitCong((x2 - x1) * (D * D), h);
    var vh :| IsInverse(vh, h);
    ProductUnit(D, v, h, vh);
    Symm(r.Z, D * h);
    UnitCong(D * h, r.Z);
  }

  /** Twice a point is where its tangent meets the curve again, mirrored. */
  lemma TangentPoint(a: Jac, r: Jac, x: int, y: int, w: int)
    requires DoubleSpec(a, r) && At(a, x, y) && IsInverse(w, 2 * y)
    ensures var l := w * (3 * (x * x)); var x3 := l * l - x - x; At(r, x3, l * (x - x3) - y)
  {
    hide Cong, DoubleFormula;
    var l := w * (3 * (x * x));
    OrdinateZero(a, x, y);
    if Cong(y, 0) {
      Scale(y, 0, 2);
      Apart(0, 2 * y, w);
      Symm(2 * y, 0);
      assert false;
    }
    VInverse(w, 2 * y);
    Undone(3 * (x * x), 2 * y, w);
    assert l * (2 * y) == 3 * (x * x) * (2 * y) * w by {
      Assoc(w, 3 * (x * x), 2 * y);
    }
    TangentLaw(a, r, x, y, l);
    TangentUnit(a, r, x, y, w);
  }

  lemma TangentUnit(a: Jac, r: Jac, x: int, y: int, w: int)
    requires DoubleFormula(a.X, a.Y, a.Z, r) && At(a, x, y) && IsInverse(w, 2 * y)
    ensures Unit(r.Z)
  {
    hide Cong;
    var z := a.Z;
    var v :| IsInverse(v, z);
    ProductUnit(z, v, z, v);
    ProductUnit(z * z, v * v, z * z, v * v);
    ProductUnit(2 * y, w, z * z * (z * z), v * v * (v * v));
    CongFactor(a.Y, y * (z * z) * z, 2 * z);
    assert a.Y * (2 * z) == 2 * (a.Y * z);
    assert y * (z * z) * z * (2 * z) == 2 * y * (z * z * (z * z)) by {
      Assoc(y, z * z, z);
      assert z * z * z * z == z * z * (z * z);
      Assoc(y, z * z * z, 2 * z);
    }
    Symm(2 * (a.Y * z), 2 * y * (z * z * (z * z)));
    Symm(r.Z, 2 * (a.Y * z));
    Trans(2 * y * (z * z * (z * z)), 2 * (a.Y * z), r.Z);
    UnitCong(2 * y * (z * z * (z * z)), r.Z);
  }
}
