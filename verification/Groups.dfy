/** An abelian group given by its operations, and integer multiples in it. */
module Groups {
  datatype Group<!P(!new)> = Group(zero: P, add: (P, P) -> P, neg: P -> P, lam: P -> P)

  ghost predicate IsGroup<P(!new)>(g: Group<P>) {
    && (forall x :: g.add(x, g.zero) == x)
    && (forall x :: g.add(x, g.neg(x)) == g.zero)
    && (forall x, y :: g.add(x, y) == g.add(y, x))
    && (forall x, y, z :: g.add(g.add(x, y), z) == g.add(x, g.add(y, z)))
  }

  lemma Zero<P(!new)>(g: Group<P>, x: P)
    requires IsGroup(g)
    ensures g.add(x, g.zero) == x && g.add(x, g.neg(x)) == g.zero && g.add(g.neg(x), x) == g.zero
    ensures g.add(g.zero, x) == x
  {
  }

  lemma Comm<P(!new)>(g: Group<P>, x: P, y: P)
    requires IsGroup(g)
    ensures g.add(x, y) == g.add(y, x)
  {
  }

  lemma Assoc<P(!new)>(g: Group<P>, x: P, y: P, z: P)
    requires IsGroup(g)
    ensures g.add(g.add(x, y), z) == g.add(x, g.add(y, z))
  {
  }

  /** k*x for any integer k. */
  ghost function Mul<P(!new)>(g: Group<P>, k: int, x: P): P
    decreases if k < 0 then -k else k
  {
    if k == 0 then g.zero
    else if k > 0 then g.add(Mul(g, k - 1, x), x)
    else g.add(Mul(g, k + 1, x), g.neg(x))
  }

  lemma MulSucc<P(!new)>(g: Group<P>, k: int, x: P)
    requires IsGroup(g)
    ensures Mul(g, k + 1, x) == g.add(Mul(g, k, x), x)
  {
    hide IsGroup;
    if k < 0 {
      Assoc(g, Mul(g, k + 1, x), g.neg(x), x);
      Zero(g, x);
      Zero(g, Mul(g, k + 1, x));
    }
  }

  lemma MulPred<P(!new)>(g: Group<P>, k: int, x: P)
    requires IsGroup(g)
    ensures Mul(g, k - 1, x) == g.add(Mul(g, k, x), g.neg(x))
  {
    hide IsGroup;
    if k > 0 {
      Assoc(g, Mul(g, k - 1, x), x, g.neg(x));
      Zero(g, x);
      Zero(g, Mul(g, k - 1, x));
    }
  }

  lemma {:induction false} MulAdd<P(!new)>(g: Group<P>, j: int, k: int, x: P)
    requires IsGroup(g)
    ensures Mul(g, j + k, x) == g.add(Mul(g, j, x), Mul(g, k, x))
    decreases if k < 0 then -k else k
  {
    hide IsGroup;
    if k == 0 {
      Zero(g, Mul(g, j, x));
    } else if k > 0 {
      MulAdd(g, j, k - 1, x);
      MulSucc(g, j + k - 1, x);
      Assoc(g, Mul(g, j, x), Mul(g, k - 1, x), x);
    } else {
      MulAdd(g, j, k + 1, x);
      MulPred(g, j + k + 1, x);
      Assoc(g, Mul(g, j, x), Mul(g, k + 1, x), g.neg(x));
    }
  }

  lemma MulOne<P(!new)>(g: Group<P>, x: P)
    requires IsGroup(g)
    ensures Mul(g, 1, x) == x && Mul(g, 0, x) == g.zero
  {
    assert Mul(g, 0, x) == g.zero;
    Zero(g, x);
  }

  lemma Cancel<P(!new)>(g: Group<P>, x: P, y: P)
    requires IsGroup(g) && g.add(x, y) == g.zero
    ensures y == g.neg(x)
  {
    hide IsGroup;
    Assoc(g, g.neg(x), x, y);
    Zero(g, x);
    Zero(g, y);
    Zero(g, g.neg(x));
  }

  lemma MulNeg<P(!new)>(g: Group<P>, k: int, x: P)
    requires IsGroup(g)
    ensures Mul(g, -k, x) == g.neg(Mul(g, k, x))
  {
    hide IsGroup;
    MulAdd(g, k, -k, x);
    Cancel(g, Mul(g, k, x), Mul(g, -k, x));
  }

  lemma {:induction false} MulMul<P(!new)>(g: Group<P>, j: int, k: int, x: P)
    requires IsGroup(g)
    ensures Mul(g, j, Mul(g, k, x)) == Mul(g, j * k, x)
    decreases if j < 0 then -j else j
  {
    hide IsGroup;
    if j > 0 {
      MulMul(g, j - 1, k, x);
      MulAdd(g, (j - 1) * k, k, x);
      assert (j - 1) * k + k == j * k;
    } else if j < 0 {
      MulMul(g, j + 1, k, x);
      MulAdd(g, (j + 1) * k, -k, x);
      MulNeg(g, k, x);
      assert (j + 1) * k + -k == j * k;
    }
  }

  lemma Swap<P(!new)>(g: Group<P>, a: P, b: P, c: P, d: P)
    requires IsGroup(g)
    ensures g.add(g.add(a, b), g.add(c, d)) == g.add(g.add(a, c), g.add(b, d))
  {
    hide IsGroup;
    Assoc(g, a, b, g.add(c, d));
    Assoc(g, b, c, d);
    Comm(g, b, c);
    Assoc(g, c, b, d);
    Assoc(g, a, c, g.add(b, d));
  }
}
