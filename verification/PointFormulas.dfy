/** The Jacobian formulas, and why they are the chord and tangent law of the affine curve. */
module PointFormulas {
  import opened Residues

  /** The numbers a point's limbs stand for. */
  datatype Jac = Jac(X: int, Y: int, Z: int, inf: bool)

  ghost predicate DoubleFormula(x: int, y: int, z: int, r: Jac) {
    var a, b := x * x, y * y;
    && Cong(r.Z, 2 * (y * z))
    && Cong(r.X, 9 * (a * a) - 8 * (x * b))
    && Cong(r.Y, 3 * a * (12 * (x * b) - 9 * (a * a)) - 8 * (b * b))
  }

  /** Two points brought over the common denominator Z1*Z2. */
  ghost predicate AddFormula(u1: int, u2: int, s1: int, s2: int, z1: int, z2: int, r: Jac) {
    var h, i := u2 - u1, s2 - s1;
    && Cong(r.Z, z1 * z2 * h)
    && Cong(r.X, i * i - h * h * h - 2 * (u1 * (h * h)))
    && Cong(r.Y, i * (3 * (u1 * (h * h)) + h * h * h - i * i) - s1 * (h * h * h))
  }

  ghost predicate DoubleSpec(a: Jac, r: Jac) {
    if a.inf || Cong(a.Y, 0) then r.inf else !r.inf && DoubleFormula(a.X, a.Y, a.Z, r)
  }

  /** A point's coordinates brought over a further denominator z. */
  ghost function XOver(a: Jac, z: int): int {
    a.X * (z * z)
  }

  ghost function YOver(a: Jac, z: int): int {
    a.Y * (z * z) * z
  }

  ghost predicate AddSpec(a: Jac, b: Jac, r: Jac) {
    var u1, u2 := XOver(a, b.Z), XOver(b, a.Z);
    var s1, s2 := YOver(a, b.Z), YOver(b, a.Z);
    if a.inf then r == b
    else if b.inf then r == a
    else if !Cong(u1, u2) then !r.inf && AddFormula(u1, u2, s1, s2, a.Z, b.Z, r)
    else if Cong(s1, s2) then DoubleSpec(a, r)
    else r.inf
  }

  /** The affine coordinates of a Jacobian point: X = x*Z^2 and Y = y*Z^3. */
  ghost predicate Affine(p: Jac, x: int, y: int) {
    Cong(p.X, x * (p.Z * p.Z)) && Cong(p.Y, y * (p.Z * p.Z) * p.Z)
  }

  lemma DoubleSteps(x: int, y: int, z: int, n: int, z0: int, s: int, t2: int, q: int, w: int, t3: int, m: int, r: Jac)
    requires Cong(n, y) && Cong(z0, n * z) && r.Z == 2 * z0
    requires Cong(s, x * x) && Cong(t2, 3 * s * (3 * s))
    requires Cong(q, n * n) && Cong(w, 2 * q * (2 * q)) && Cong(t3, x * (2 * q))
    requires r.X == 10 * P - 4 * t3 + t2
    requires Cong(m, 3 * s * (6 * t3 + (4 * P - t2))) && r.Y == m + (6 * P - 2 * w)
    ensures DoubleFormula(x, y, z, r)
  {
    hide Cong;
    var a, b := x * x, y * y;
    var c, a2, b2 := x * b, a * a, b * b;
    Refl(z);
    ProductOf(z0, n, z, y, z);
    Scale(z0, y * z, 2);
    ProductOf(q, n, n, y, y);
    SquareOf(t2, s, a, 3);
    SquareOf(w, q, b, 2);
    Scale(q, b, 2);
    ProductOf(t3, x, 2 * q, x, 2 * b);
    assert x * (2 * b) == 2 * c;
    DoubleX(r.X, t2, t3, 9 * a2, c);
    DoubleY(r.Y, m, s, t2, t3, w, a, c, 9 * a2, b2);
  }

  lemma SquareOf(v: int, s: int, a: int, k: int)
    requires Cong(s, a) && Cong(v, k * s * (k * s))
    ensures Cong(v, k * k * (a * a))
  {
    hide Cong;
    Scale(s, a, k);
    ProductOf(v, k * s, k * s, k * a, k * a);
    assert k * a * (k * a) == k * k * (a * a);
  }

  lemma ProductOf(v: int, s: int, t: int, a: int, b: int)
    requires Cong(s, a) && Cong(t, b) && Cong(v, s * t)
    ensures Cong(v, a * b)
  {
    CongMul(s, a, t, b);
  }

  lemma DoubleX(x3: int, t2: int, t3: int, a: int, c: int)
    requires Cong(t2, a) && Cong(t3, 2 * c) && x3 == 10 * P - 4 * t3 + t2
    ensures Cong(x3, a - 8 * c)
  {
    hide Cong;
    Scale(t3, 2 * c, 4);
    CongAdd(t2, a, 4 * t3, 4 * (2 * c));
    Lift(x3, t2 - 4 * t3, 10, a - 8 * c);
  }

  lemma DoubleY(y3: int, m: int, s: int, t2: int, t3: int, w: int, a: int, c: int, d: int, e: int)
    requires Cong(s, a) && Cong(t2, d) && Cong(t3, 2 * c) && Cong(w, 4 * e)
    requires Cong(m, 3 * s * (6 * t3 + (4 * P - t2))) && y3 == m + (6 * P - 2 * w)
    ensures Cong(y3, 3 * a * (12 * c - d) - 8 * e)
  {
    hide Cong;
    Scale(s, a, 3);
    Scale(t3, 2 * c, 6);
    CongAdd(6 * t3, 6 * (2 * c), t2, d);
    Lift(6 * t3 + (4 * P - t2), 6 * t3 - t2, 4, 12 * c - d);
    ProductOf(m, 3 * s, 6 * t3 + (4 * P - t2), 3 * a, 12 * c - d);
    Scale(w, 4 * e, 2);
    CongAdd(m, 3 * a * (12 * c - d), 2 * w, 2 * (4 * e));
    Lift(y3, m - 2 * w, 6, 3 * a * (12 * c - d) - 8 * e);
  }

  /** Bringing (X, Y) over a denominator z. */
  lemma Lifted(a: Jac, z: int, zz: int, u: int, s0: int, s: int)
    requires Cong(zz, z * z) && Cong(u, a.X * zz) && Cong(s0, a.Y * zz) && Cong(s, s0 * z)
    ensures Cong(u, XOver(a, z)) && Cong(s, YOver(a, z))
  {
    hide Cong;
    var x, y := a.X, a.Y;
    Refl(x);
    Refl(y);
    Refl(z);
    ProductOf(u, x, zz, x, z * z);
    ProductOf(s0, y, zz, y, z * z);
    ProductOf(s, s0, z, y * (z * z), z);
  }

  lemma AddSteps(U1: int, U2: int, S1: int, S2: int, z1: int, z2: int, u1: int, u2: int, s1: int, s2: int,
                 i2: int, h2: int, h3: int, z0: int, t: int, m: int, g: int, r: Jac)
    requires Cong(u1, U1) && Cong(u2, U2) && Cong(s1, S1) && Cong(s2, S2)
    requires var h, i := 4 * P - u1 + u2, 4 * P - s1 + s2;
             && Cong(i2, i * i) && Cong(h2, h * h) && Cong(h3, h * h2)
             && Cong(z0, z1 * z2) && Cong(r.Z, z0 * h) && Cong(t, u1 * h2)
             && r.X == 8 * P - (2 * t + h3) + i2
             && Cong(m, (12 * P - r.X + t) * i) && Cong(g, h3 * s1) && r.Y == m + (4 * P - g)
    ensures AddFormula(U1, U2, S1, S2, z1, z2, r)
  {
    hide Cong;
    var h, i := 4 * P - u1 + u2, 4 * P - s1 + s2;
    var H, I := U2 - U1, S2 - S1;
    CongAdd(u2, U2, u1, U1);
    Lift(h, u2 - u1, 4, H);
    CongAdd(s2, S2, s1, S1);
    Lift(i, s2 - s1, 4, I);
    ProductOf(i2, i, i, I, I);
    ProductOf(h2, h, h, H, H);
    ProductOf(h3, h, h2, H, H * H);
    assert H * (H * H) == H * H * H;
    ProductOf(r.Z, z0, h, z1 * z2, H);
    ProductOf(t, u1, h2, U1, H * H);
    AddX(r.X, t, h3, i2, U1 * (H * H), H * H * H, I * I);
    AddY(r.Y, r.X, t, i, m, g, h3, s1, U1 * (H * H), H * H * H, I * I, I, S1);
  }

  lemma AddX(x3: int, t: int, h3: int, i2: int, T: int, H3: int, I2: int)
    requires Cong(t, T) && Cong(h3, H3) && Cong(i2, I2) && x3 == 8 * P - (2 * t + h3) + i2
    ensures Cong(x3, I2 - H3 - 2 * T)
  {
    hide Cong;
    Scale(t, T, 2);
    CongAdd(i2, I2, h3, H3);
    CongAdd(i2 - h3, I2 - H3, 2 * t, 2 * T);
    Lift(x3, i2 - h3 - 2 * t, 8, I2 - H3 - 2 * T);
  }

  lemma AddY(y3: int, x3: int, t: int, i: int, m: int, g: int, h3: int, s1: int,
             T: int, H3: int, I2: int, I: int, S1: int)
    requires Cong(t, T) && Cong(h3, H3) && Cong(i, I) && Cong(s1, S1) && Cong(x3, I2 - H3 - 2 * T)
    requires Cong(m, (12 * P - x3 + t) * i) && Cong(g, h3 * s1) && y3 == m + (4 * P - g)
    ensures Cong(y3, I * (3 * T + H3 - I2) - S1 * H3)
  {
    hide Cong;
    CongAdd(t, T, x3, I2 - H3 - 2 * T);
    Lift(12 * P - x3 + t, t - x3, 12, 3 * T + H3 - I2);
    ProductOf(m, 12 * P - x3 + t, i, 3 * T + H3 - I2, I);
    assert (3 * T + H3 - I2) * I == I * (3 * T + H3 - I2);
    ProductOf(g, h3, s1, H3, S1);
    assert H3 * S1 == S1 * H3;
    CongAdd(m, I * (3 * T + H3 - I2), g, S1 * H3);
    Lift(y3, m - g, 4, I * (3 * T + H3 - I2) - S1 * H3);
  }

  lemma Trans(a: int, b: int, c: int)
    requires Cong(a, b) && Cong(b, c)
    ensures Cong(a, c)
  {
  }

  lemma Refl(a: int)
    ensures Cong(a, a)
  {
  }

  lemma Scale(a: int, b: int, k: int)
    requires Cong(a, b)
    ensures Cong(k * a, k * b)
  {
    CongMul(k, k, a, b);
  }

  lemma Lift(a: int, b: int, k: int, c: int)
    requires a == b + k * P && Cong(b, c)
    ensures Cong(a, c)
  {
    CongPlus(b, k);
  }

  // The chord and tangent law. A line of slope L = i/w through (u1, s1) and (u2, s2), all over one denominator.

  lemma SquareProduct(l: int, w: int)
    ensures l * w * (l * w) == l * l * (w * w)
  {
  }

  lemma Minus(a: int, b: int, w: int)
    ensures (a - b) * w == a * w - b * w
  {
  }

  lemma Shuffle(l: int, w: int, d: int, v: int)
    ensures l * w * (d * v) == l * d * v * w
  {
    assert l * w * (d * v) == l * (w * (d * v));
    assert w * (d * v) == d * v * w;
    assert l * d * v * w == l * (d * v * w);
  }

  lemma SlopeLaw(L: int, w: int, i: int, u1: int, u2: int, s1: int, X3: int, Y3: int)
    requires Cong(L * w, i)
    requires Cong(X3, i * i - (u1 + u2) * (w * w))
    requires Cong(Y3, i * (u1 * (w * w) - (i * i - (u1 + u2) * (w * w))) - s1 * (w * w) * w)
    ensures var x' := L * L - (u1 + u2);
            Cong(X3, x' * (w * w)) && Cong(Y3, (L * (u1 - x') - s1) * (w * w) * w)
  {
    hide Cong;
    var v, x' := w * w, L * L - (u1 + u2);
    var c := i * i - (u1 + u2) * v;
    CongMul(L * w, i, L * w, i);
    SquareProduct(L, w);
    Refl((u1 + u2) * v);
    CongAdd(L * L * v, i * i, (u1 + u2) * v, (u1 + u2) * v);
    Minus(L * L, u1 + u2, v);
    assert Cong(x' * v, c);
    Symm(x' * v, c);
    Trans(X3, c, x' * v);
    Refl(u1 * v);
    CongAdd(u1 * v, u1 * v, x' * v, c);
    Minus(u1, x', v);
    CongMul(L * w, i, (u1 - x') * v, u1 * v - c);
    Shuffle(L, w, u1 - x', v);
    Refl(s1 * v * w);
    CongAdd(L * (u1 - x') * v * w, i * (u1 * v - c), s1 * v * w, s1 * v * w);
    Minus(L * (u1 - x'), s1, v);
    Minus(L * (u1 - x') * v, s1 * v, w);
    Symm((L * (u1 - x') - s1) * v * w, i * (u1 * v - c) - s1 * v * w);
    Trans(Y3, i * (u1 * v - c) - s1 * v * w, (L * (u1 - x') - s1) * v * w);
  }

  lemma Symm(a: int, b: int)
    requires Cong(a, b)
    ensures Cong(b, a)
  {
  }

  lemma MulSwap(a: int, b: int, c: int, d: int)
    ensures a * b * (c * d) == a * c * (b * d)
  {
    assert a * b * (c * d) == a * (b * (c * d));
    assert b * (c * d) == c * (b * d);
  }

  lemma Assoc(a: int, b: int, c: int)
    ensures a * b * c == a * (b * c)
  {
  }

  lemma CongFactor(a: int, b: int, k: int)
    requires Cong(a, b)
    ensures Cong(a * k, b * k)
  {
    CongMul(a, b, k, k);
  }

  /** The affine abscissa and ordinate, from the ones over the denominator D. */
  lemma Rescale(l: int, D: int, w: int, u1: int, u2: int, s1: int, x1: int, x2: int, y1: int, r: Jac)
    requires Cong(u1, x1 * (D * D)) && Cong(u2, x2 * (D * D)) && Cong(s1, y1 * (D * D) * D) && Cong(r.Z, D * w)
    requires var L := l * D; var x' := L * L - (u1 + u2);
             Cong(r.X, x' * (w * w)) && Cong(r.Y, (L * (u1 - x') - s1) * (w * w) * w)
    ensures var x3 := l * l - x1 - x2; Affine(r, x3, l * (x1 - x3) - y1)
  {
    hide Cong;
    var L, E, x3 := l * D, D * D, l * l - x1 - x2;
    var x', y3 := L * L - (u1 + u2), l * (x1 - x3) - y1;
    assert Cong(x', x3 * E) by {
      SquareProduct(l, D);
      Refl(L * L);
      CongAdd(u1, x1 * E, u2, x2 * E);
      CongAdd(L * L, l * l * E, u1 + u2, x1 * E + x2 * E);
      Minus(l * l, x1, E);
      Minus(l * l - x1, x2, E);
    }
    assert Cong(L * (u1 - x') - s1, y3 * (E * D)) by {
      CongAdd(u1, x1 * E, x', x3 * E);
      Minus(x1, x3, E);
      Scale(u1 - x', (x1 - x3) * E, L);
      MulSwap(l, D, x1 - x3, E);
      assert D * E == E * D;
      Assoc(y1, E, D);
      CongAdd(L * (u1 - x'), l * (x1 - x3) * (E * D), s1, y1 * (E * D));
      Minus(l * (x1 - x3), y1, E * D);
    }
    assert Cong(r.Z * r.Z, E * (w * w)) by {
      CongMul(r.Z, D * w, r.Z, D * w);
      MulSwap(D, w, D, w);
    }
    Abscissa(r.X, x', w * w, x3, E, r.Z * r.Z);
    Ordinate(r.Y, L * (u1 - x') - s1, w * w, w, y3, E, D, r.Z * r.Z, r.Z);
  }

  lemma Abscissa(X: int, x': int, W: int, x3: int, E: int, ZZ: int)
    requires Cong(X, x' * W) && Cong(x', x3 * E) && Cong(ZZ, E * W)
    ensures Cong(X, x3 * ZZ)
  {
    hide Cong;
    CongFactor(x', x3 * E, W);
    Assoc(x3, E, W);
    Trans(X, x' * W, x3 * (E * W));
    Scale(ZZ, E * W, x3);
    Symm(x3 * ZZ, x3 * (E * W));
    Trans(X, x3 * (E * W), x3 * ZZ);
  }

  lemma Ordinate(Y: int, y': int, W: int, w: int, y3: int, E: int, D: int, ZZ: int, Z: int)
    requires Cong(Y, y' * W * w) && Cong(y', y3 * (E * D)) && Cong(ZZ, E * W) && Cong(Z, D * w)
    ensures Cong(Y, y3 * ZZ * Z)
  {
    hide Cong;
    Assoc(y', W, w);
    CongFactor(y', y3 * (E * D), W * w);
    Assoc(y3, E * D, W * w);
    MulSwap(E, D, W, w);
    Trans(Y, y' * W * w, y3 * (E * W * (D * w)));
    CongMul(ZZ, E * W, Z, D * w);
    Scale(ZZ * Z, E * W * (D * w), y3);
    Assoc(y3, ZZ, Z);
    Symm(y3 * (ZZ * Z), y3 * (E * W * (D * w)));
    Trans(Y, y3 * (E * W * (D * w)), y3 * ZZ * Z);
  }

  /** Doubling: the tangent law. The slope l solves l*2y = 3x^2. */
  lemma TangentLaw(p: Jac, r: Jac, x: int, y: int, l: int)
    requires DoubleFormula(p.X, p.Y, p.Z, r) && Affine(p, x, y)
    requires Cong(l * (2 * y), 3 * (x * x))
    ensures var x3 := l * l - x - x; Affine(r, x3, l * (x - x3) - y)
  {
    hide Cong;
    var D, w, i := p.Z, 2 * p.Y, 3 * (p.X * p.X);
    TangentSlope(p.X, p.Y, D, D * D, x, y, l);
    TangentFormula(p.X, p.Y);
    SlopeLaw(l * D, w, i, p.X, p.X, p.Y, r.X, r.Y);
    assert 2 * (p.Y * p.Z) == D * w;
    Rescale(l, D, w, p.X, p.X, p.Y, x, x, y, r);
  }

  lemma TangentSlope(X: int, Y: int, D: int, E: int, x: int, y: int, l: int)
    requires Cong(X, x * E) && Cong(Y, y * E * D) && E == D * D && Cong(l * (2 * y), 3 * (x * x))
    ensures Cong(l * D * (2 * Y), 3 * (X * X))
  {
    hide Cong;
    Scale(Y, y * E * D, 2 * (l * D));
    assert 2 * (l * D) * Y == l * D * (2 * Y);
    assert 2 * (l * D) * (y * E * D) == l * (2 * y) * (E * E) by {
      Assoc(y, E, D);
      MulSwap(2 * l, D, y, E * D);
      assert D * (E * D) == E * E;
      assert 2 * l * y == l * (2 * y);
    }
    CongFactor(l * (2 * y), 3 * (x * x), E * E);
    Trans(l * D * (2 * Y), l * (2 * y) * (E * E), 3 * (x * x) * (E * E));
    CongMul(X, x * E, X, x * E);
    MulSwap(x, E, x, E);
    Scale(X * X, x * x * (E * E), 3);
    Assoc(3, x * x, E * E);
    Symm(3 * (X * X), 3 * (x * x * (E * E)));
    Trans(l * D * (2 * Y), 3 * (x * x) * (E * E), 3 * (X * X));
  }

  /** The doubling formula is the slope formula with u1 = u2 = X, s1 = Y, w = 2Y, i = 3X^2. */
  lemma TangentFormula(x: int, y: int)
    ensures var a, b, w, i := x * x, y * y, 2 * y, 3 * (x * x);
            && 9 * (a * a) - 8 * (x * b) == i * i - (x + x) * (w * w)
            && 3 * a * (12 * (x * b) - 9 * (a * a)) - 8 * (b * b)
            == i * (x * (w * w) - (i * i - (x + x) * (w * w))) - y * (w * w) * w
  {
    var a, b, w, i := x * x, y * y, 2 * y, 3 * (x * x);
    assert w * w == 4 * b && i * i == 9 * (a * a);
    assert x * (4 * b) == 4 * (x * b);
    assert y * (4 * b) * (2 * y) == 8 * (b * b);
  }

  /** Addition of points with different abscissas: the chord law. The slope l solves l*(x2-x1) = y2-y1. */
  lemma ChordLaw(p: Jac, q: Jac, r: Jac, x1: int, y1: int, x2: int, y2: int, l: int)
    requires AddSpec(p, q, r) && !p.inf && !q.inf && !Cong(XOver(p, q.Z), XOver(q, p.Z))
    requires Affine(p, x1, y1) && Affine(q, x2, y2) && Cong(l * (x2 - x1), y2 - y1)
    ensures var x3 := l * l - x1 - x2; !r.inf && Affine(r, x3, l * (x1 - x3) - y1)
  {
    hide Cong;
    var D := p.Z * q.Z;
    var u1, u2 := p.X * (q.Z * q.Z), q.X * (p.Z * p.Z);
    var s1, s2 := p.Y * (q.Z * q.Z) * q.Z, q.Y * (p.Z * p.Z) * p.Z;
    CommonDenominator(p, q.Z, x1, y1);
    CommonDenominator(q, p.Z, x2, y2);
    assert q.Z * p.Z == D;
    var h, i := u2 - u1, s2 - s1;
    ChordSlope(u1, u2, s1, s2, D, D * D, x1, y1, x2, y2, l);
    ChordFormula(u1, h, s1, i);
    SlopeLaw(l * D, h, i, u1, u2, s1, r.X, r.Y);
    Rescale(l, D, h, u1, u2, s1, x1, x2, y1, r);
  }

  lemma CommonDenominator(p: Jac, z: int, x: int, y: int)
    requires Affine(p, x, y)
    ensures var D := p.Z * z;
            Cong(p.X * (z * z), x * (D * D)) && Cong(p.Y * (z * z) * z, y * (D * D) * D)
  {
    hide Cong;
    var A, D := p.Z * p.Z, p.Z * z;
    MulSwap(p.Z, z, p.Z, z);
    CongFactor(p.X, x * A, z * z);
    Assoc(x, A, z * z);
    CongFactor(p.Y, y * A * p.Z, z * z * z);
    Assoc(p.Y, z * z, z);
    assert y * A * p.Z * (z * z * z) == y * (D * D) * D by {
      Assoc(y, A, p.Z);
      Assoc(y, A * p.Z, z * z * z);
      MulSwap(A, p.Z, z * z, z);
      Assoc(y, D * D, D);
    }
  }

  lemma ChordSlope(u1: int, u2: int, s1: int, s2: int, D: int, E: int, x1: int, y1: int, x2: int, y2: int, l: int)
    requires Cong(u1, x1 * E) && Cong(u2, x2 * E) && Cong(s1, y1 * E * D) && Cong(s2, y2 * E * D)
    requires Cong(l * (x2 - x1), y2 - y1)
    ensures Cong(l * D * (u2 - u1), s2 - s1)
  {
    hide Cong;
    CongAdd(u2, x2 * E, u1, x1 * E);
    Minus(x2, x1, E);
    Scale(u2 - u1, (x2 - x1) * E, l * D);
    MulSwap(l, D, x2 - x1, E);
    assert D * E == E * D;
    CongFactor(l * (x2 - x1), y2 - y1, E * D);
    Trans(l * D * (u2 - u1), l * (x2 - x1) * (E * D), (y2 - y1) * (E * D));
    CongAdd(s2, y2 * E * D, s1, y1 * E * D);
    Assoc(y2, E, D);
    Assoc(y1, E, D);
    Minus(y2, y1, E * D);
    Symm(s2 - s1, (y2 - y1) * (E * D));
    Trans(l * D * (u2 - u1), (y2 - y1) * (E * D), s2 - s1);
  }

  /** The addition formula is the slope formula with w = h = u2 - u1. */
  lemma ChordFormula(u1: int, h: int, s1: int, i: int)
    ensures var u2, v := u1 + h, h * h;
            && i * i - h * h * h - 2 * (u1 * v) == i * i - (u1 + u2) * v
            && i * (3 * (u1 * v) + h * h * h - i * i) - s1 * (h * h * h)
            == i * (u1 * v - (i * i - (u1 + u2) * v)) - s1 * v * h
  {
    var v := h * h;
    assert (u1 + (u1 + h)) * v == 2 * (u1 * v) + h * v;
    Assoc(s1, v, h);
  }
}
