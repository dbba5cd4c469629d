/** Interleaved multiplication of two points by two scalars, over an abstract group. */
module Ecmult {
  import opened Powers
  import opened Groups
  import opened Num
  import opened Wnaf

  const WINDOW_A := 5
  const WINDOW_G := 14

  /** The curve's group: its exponent divides the order, and the endomorphism multiplies by LAMBDA. */
  ghost predicate IsCurve<P(!new)>(g: Group<P>) {
    && IsGroup(g)
    && (forall x :: Mul(g, ORDER, x) == g.zero)
    && (forall x :: g.lam(x) == Mul(g, LAMBDA, x))
  }

  /** A table of the odd multiples x, 3x, 5x, ... for windows of w bits. */
  ghost predicate OddMultiples<P(!new)>(g: Group<P>, x: P, pre: seq<P>, w: nat)
    requires w >= 2
  {
    |pre| == Pow2(w - 2) && forall i :: 0 <= i < |pre| ==> pre[i] == Mul(g, 2 * i + 1, x)
  }

  method Precomp<P(!new)>(g: Group<P>, a: P, w: nat) returns (pre: seq<P>)
    requires IsGroup(g) && w >= 2
    ensures OddMultiples(g, a, pre, w)
  {
    hide IsGroup;
    var len := Pow2(w - 2);
    pre := [a];
    var d := g.add(a, a);
    MulOne(g, a);
    MulAdd(g, 1, 1, a);
    for i := 1 to len
      invariant |pre| == i
      invariant forall j :: 0 <= j < i ==> pre[j] == Mul(g, 2 * j + 1, a)
    {
      MulAdd(g, 2, 2 * (i - 1) + 1, a);
      pre := pre + [g.add(d, pre[i - 1])];
    }
  }

  /** One digit's contribution, looked up in a table of odd multiples; the source writes this out four times. */
  method AddDigit<P(!new)>(g: Group<P>, r: P, pre: seq<P>, n: int, ghost x: P, ghost w: nat) returns (s: P)
    requires IsGroup(g) && w >= 2 && OddMultiples(g, x, pre, w)
    requires n == 0 || (n % 2 == 1 && -(Pow2(w - 1) as int) < n < Pow2(w - 1))
    ensures s == g.add(r, Mul(g, n, x))
  {
    hide IsGroup, Mul;
    assert Pow2(w - 1) == 2 * Pow2(w - 2);
    if n > 0 {
      s := g.add(r, pre[(n - 1) / 2]);
    } else if n != 0 {
      var t := g.neg(pre[(-n - 1) / 2]);
      MulNeg(g, -n, x);
      s := g.add(r, t);
    } else {
      MulOne(g, x);
      Zero(g, r);
      s := r;
    }
  }

  /** The digits from position i on, as an integer. */
  ghost function Tail(s: seq<int>, i: nat): int {
    if i >= |s| then 0 else Weighted(s[i..])
  }

  lemma TailStep(s: seq<int>, i: nat)
    ensures Tail(s, i) == (if i < |s| then s[i] else 0) + 2 * Tail(s, i + 1)
    ensures Tail(s, 0) == Weighted(s)
  {
    if i < |s| {
      assert s[i..][1..] == s[i + 1..];
      if i + 1 == |s| {
        assert s[i + 1..] == [];
      }
    }
    assert s[0..] == s;
  }

  /** What the four digit streams have contributed: k1*a + k2*b + k3*c + k4*d. */
  ghost function Comb<P(!new)>(g: Group<P>, k1: int, a: P, k2: int, b: P, k3: int, c: P, k4: int, d: P): P {
    g.add(g.add(Mul(g, k1, a), Mul(g, k2, b)), g.add(Mul(g, k3, c), Mul(g, k4, d)))
  }

  lemma CombSum<P(!new)>(g: Group<P>, k1: int, j1: int, a: P, k2: int, j2: int, b: P,
                             k3: int, j3: int, c: P, k4: int, j4: int, d: P)
    requires IsGroup(g)
    ensures g.add(Comb(g, k1, a, k2, b, k3, c, k4, d), Comb(g, j1, a, j2, b, j3, c, j4, d))
         == Comb(g, k1 + j1, a, k2 + j2, b, k3 + j3, c, k4 + j4, d)
  {
    hide IsGroup, Mul;
    MulAdd(g, k1, j1, a);
    MulAdd(g, k2, j2, b);
    MulAdd(g, k3, j3, c);
    MulAdd(g, k4, j4, d);
    Swap(g, Mul(g, k1, a), Mul(g, k2, b), Mul(g, j1, a), Mul(g, j2, b));
    Swap(g, Mul(g, k3, c), Mul(g, k4, d), Mul(g, j3, c), Mul(g, j4, d));
    Swap(g, g.add(Mul(g, k1, a), Mul(g, k2, b)), g.add(Mul(g, k3, c), Mul(g, k4, d)),
         g.add(Mul(g, j1, a), Mul(g, j2, b)), g.add(Mul(g, j3, c), Mul(g, j4, d)));
  }

  /** Adding n times one of the four points. */
  lemma CombOne<P(!new)>(g: Group<P>, a: P, b: P, c: P, d: P, n: int)
    requires IsGroup(g)
    ensures Comb(g, n, a, 0, b, 0, c, 0, d) == Mul(g, n, a)
    ensures Comb(g, 0, a, n, b, 0, c, 0, d) == Mul(g, n, b)
    ensures Comb(g, 0, a, 0, b, n, c, 0, d) == Mul(g, n, c)
    ensures Comb(g, 0, a, 0, b, 0, c, n, d) == Mul(g, n, d)
  {
    hide IsGroup, Mul;
    MulOne(g, a);
    MulOne(g, b);
    MulOne(g, c);
    MulOne(g, d);
    Zero(g, g.zero);
    Zero(g, Mul(g, n, a));
    Zero(g, Mul(g, n, b));
    Zero(g, Mul(g, n, c));
    Zero(g, Mul(g, n, d));
  }

  /** Position i of a digit stream, in the form AddDigit wants it. */
  lemma DigitAt(s: seq<int>, w: nat, i: nat)
    requires w >= 2 && NonAdjacent(s, w) && i < |s|
    ensures s[i] == 0 || (s[i] % 2 == 1 && -(Pow2(w - 1) as int) < s[i] < Pow2(w - 1))
  {
  }

  /** One stream's share of a loop iteration: nothing once the stream is exhausted. */
  method StreamDigit<P(!new)>(g: Group<P>, r: P, pre: seq<P>, wnaf: array<int>, bits: nat, i: nat, ghost x: P, ghost w: nat)
    returns (s: P)
    requires IsGroup(g) && w >= 2 && OddMultiples(g, x, pre, w)
    requires bits <= wnaf.Length && NonAdjacent(wnaf[..bits], w)
    ensures s == g.add(r, Mul(g, if i < bits then wnaf[i] else 0, x))
  {
    hide IsGroup, Mul, OddMultiples, NonAdjacent;
    s := r;
    MulOne(g, x);
    Zero(g, r);
    if i < bits {
      DigitAt(wnaf[..bits], w, i);
      s := AddDigit(g, r, pre, wnaf[i], x, w);
    }
  }

  /** The streams' points and digits: what the loop of ECmult works on. */
  datatype Streams<P(!new)> = Streams(a: P, b: P, c: P, d: P, sa: seq<int>, sb: seq<int>, sc: seq<int>, sd: seq<int>) {
    ghost function Sum(g: Group<P>, i: nat): P {
      Comb(g, Tail(sa, i), a, Tail(sb, i), b, Tail(sc, i), c, Tail(sd, i), d)
    }
  }

  ghost function At(s: seq<int>, i: nat): int {
    if i < |s| then s[i] else 0
  }

  /** Doubling and then adding each stream's digit moves the sum down one position. */
  lemma StreamStep<P(!new)>(g: Group<P>, t: Streams<P>, i: nat)
    requires IsGroup(g)
    ensures var r := t.Sum(g, i + 1);
            g.add(g.add(g.add(g.add(g.add(r, r), Mul(g, At(t.sa, i), t.a)), Mul(g, At(t.sb, i), t.b)),
                        Mul(g, At(t.sc, i), t.c)), Mul(g, At(t.sd, i), t.d)) == t.Sum(g, i)
  {
    hide IsGroup, Mul, Comb, Tail;
    var a, b, c, d := t.a, t.b, t.c, t.d;
    var k1, k2, k3, k4 := Tail(t.sa, i + 1), Tail(t.sb, i + 1), Tail(t.sc, i + 1), Tail(t.sd, i + 1);
    var n1, n2, n3, n4 := At(t.sa, i), At(t.sb, i), At(t.sc, i), At(t.sd, i);
    TailStep(t.sa, i);
    TailStep(t.sb, i);
    TailStep(t.sc, i);
    TailStep(t.sd, i);
    CombSum(g, k1, k1, a, k2, k2, b, k3, k3, c, k4, k4, d);
    CombOne(g, a, b, c, d, n1);
    CombSum(g, k1 + k1, n1, a, k2 + k2, 0, b, k3 + k3, 0, c, k4 + k4, 0, d);
    CombOne(g, a, b, c, d, n2);
    CombSum(g, k1 + k1 + n1, 0, a, k2 + k2, n2, b, k3 + k3, 0, c, k4 + k4, 0, d);
    CombOne(g, a, b, c, d, n3);
    CombSum(g, k1 + k1 + n1, 0, a, k2 + k2 + n2, 0, b, k3 + k3, n3, c, k4 + k4, 0, d);
    CombOne(g, a, b, c, d, n4);
    CombSum(g, k1 + k1 + n1, 0, a, k2 + k2 + n2, 0, b, k3 + k3 + n3, 0, c, k4 + k4, n4, d);
  }

  lemma StreamStart<P(!new)>(g: Group<P>, t: Streams<P>, bits: nat)
    requires IsGroup(g)
    requires |t.sa| <= bits && |t.sb| <= bits && |t.sc| <= bits && |t.sd| <= bits
    ensures t.Sum(g, bits) == g.zero
  {
    hide IsGroup;
    Zero(g, g.zero);
  }

  /** The four parts are na*a + ng*G: a's halves recombine through the endomorphism, G's at 2^128. */
  lemma Recombined<P(!new)>(g: Group<P>, a: P, G: P, na: int, na1: int, naLam: int, ng: int, ng1: int, ng128: int)
    requires IsCurve(g) && IsSplit(na, na1, naLam) && ng == ng1 + ng128 * Pow2(128)
    ensures Comb(g, na1, a, naLam, g.lam(a), ng1, G, ng128, Mul(g, Pow2(128), G)) == g.add(Mul(g, na, a), Mul(g, ng, G))
  {
    hide IsGroup, Mul, Pow2;
    assert g.lam(a) == Mul(g, LAMBDA, a);
    MulMul(g, naLam, LAMBDA, a);
    MulAdd(g, na1, naLam * LAMBDA, a);
    var k := (na1 + naLam * LAMBDA - na) / ORDER;
    assert na1 + naLam * LAMBDA == na + k * ORDER;
    Periodic(g, na, k, a);
    MulMul(g, ng128, Pow2(128), G);
    MulAdd(g, ng1, ng128 * Pow2(128), G);
  }

  lemma Periodic<P(!new)>(g: Group<P>, n: int, k: int, x: P)
    requires IsCurve(g)
    ensures Mul(g, n + k * ORDER, x) == Mul(g, n, x)
  {
    hide IsGroup, Mul;
    MulAdd(g, n, k * ORDER, x);
    MulMul(g, k, ORDER, x);
    assert Mul(g, ORDER, x) == g.zero;
    MulZero(g, k);
    Zero(g, Mul(g, n, x));
  }

  lemma {:induction false} MulZero<P(!new)>(g: Group<P>, k: int)
    requires IsGroup(g)
    ensures Mul(g, k, g.zero) == g.zero
    decreases if k < 0 then -k else k
  {
    hide IsGroup;
    Zero(g, g.zero);
    if k > 0 {
      MulZero(g, k - 1);
    } else if k < 0 {
      MulZero(g, k + 1);
    }
  }

  /** The recoded digits of one half in their 129 slots. */
  method Recode(x: int, w: nat) returns (wnaf: array<int>, bits: nat)
    requires -TWO128 < x < TWO128 && 2 <= w <= 64
    ensures fresh(wnaf) && bits <= wnaf.Length
    ensures Weighted(wnaf[..bits]) == x && NonAdjacent(wnaf[..bits], w)
  {
    hide NonAdjacent, Weighted, Pow2;
    PowValues();
    wnaf := new int[129];
    bits := EcmultWnaf(wnaf, x, w);
  }

  /** The loop of ECmult: from the top digit down, double once and add each stream's digit. */
  method Interleave<P(!new)>(g: Group<P>, ghost t: Streams<P>, pre1: seq<P>, pre2: seq<P>, pre3: seq<P>, pre4: seq<P>,
                             w1: array<int>, bits1: nat, w2: array<int>, bits2: nat,
                             w3: array<int>, bits3: nat, w4: array<int>, bits4: nat) returns (r: P)
    requires IsGroup(g)
    requires bits1 <= w1.Length && bits2 <= w2.Length && bits3 <= w3.Length && bits4 <= w4.Length
    requires t.sa == w1[..bits1] && t.sb == w2[..bits2] && t.sc == w3[..bits3] && t.sd == w4[..bits4]
    requires NonAdjacent(t.sa, WINDOW_A) && NonAdjacent(t.sb, WINDOW_A) && NonAdjacent(t.sc, WINDOW_G) && NonAdjacent(t.sd, WINDOW_G)
    requires OddMultiples(g, t.a, pre1, WINDOW_A) && OddMultiples(g, t.b, pre2, WINDOW_A)
    requires OddMultiples(g, t.c, pre3, WINDOW_G) && OddMultiples(g, t.d, pre4, WINDOW_G)
    ensures r == t.Sum(g, 0)
  {
    hide IsGroup, Mul, Comb, Tail, NonAdjacent, OddMultiples;
    var bits := bits1;
    if bits2 > bits {
      bits := bits2;
    }
    if bits3 > bits {
      bits := bits3;
    }
    if bits4 > bits {
      bits := bits4;
    }
    r := g.zero;
    StreamStart(g, t, bits);
    for i := bits downto 0
      invariant r == t.Sum(g, i)
    {
      StreamStep(g, t, i);
      r := g.add(r, r);
      r := StreamDigit(g, r, pre1, w1, bits1, i, t.a, WINDOW_A);
      r := StreamDigit(g, r, pre2, w2, bits2, i, t.b, WINDOW_A);
      r := StreamDigit(g, r, pre3, w3, bits3, i, t.c, WINDOW_G);
      r := StreamDigit(g, r, pre4, w4, bits4, i, t.d, WINDOW_G);
    }
  }

  /** ECmult: na*a + ng*G for every integer na and every ng of 256 bits. */
  method ECmult<P(!new)>(g: Group<P>, a: P, na: Number, ng: Number, G: P, preG: seq<P>, preG128: seq<P>) returns (r: P)
    requires IsCurve(g)
    requires OddMultiples(g, G, preG, WINDOW_G) && OddMultiples(g, Mul(g, Pow2(128), G), preG128, WINDOW_G)
    requires 0 <= ng.v < TWO128 * TWO128
    ensures r == g.add(Mul(g, na.v, a), Mul(g, ng.v, G))
  {
    hide IsCurve, IsGroup, IsSplit, Mul, Comb, NonAdjacent, OddMultiples, Weighted, Pow2;
    var na1 := new Number(0);
    var naLam := new Number(0);
    var ng1 := new Number(0);
    var ng128 := new Number(0);
    na.SplitExp(na1, naLam);
    ng.Split(ng1, ng128, 128);
    PowValues();
    HalvesFit(ng.v, ng1.v, ng128.v);
    SplitFits(na.v, na1.v, naLam.v);
    CurveIsGroup(g);
    ghost var k1, k2, k3, k4 := na1.v, naLam.v, ng1.v, ng128.v;

    var wnafNa1, bitsNa1 := Recode(na1.v, WINDOW_A);
    var wnafNaLam, bitsNaLam := Recode(naLam.v, WINDOW_A);
    var wnafNg1, bitsNg1 := Recode(ng1.v, WINDOW_G);
    var wnafNg128, bitsNg128 := Recode(ng128.v, WINDOW_G);

    var aLam := g.lam(a);
    var preA1 := Precomp(g, a, WINDOW_A);
    var preALam := Precomp(g, aLam, WINDOW_A);

    ghost var t := Streams(a, aLam, G, Mul(g, Pow2(128), G),
                           wnafNa1[..bitsNa1], wnafNaLam[..bitsNaLam], wnafNg1[..bitsNg1], wnafNg128[..bitsNg128]);
    r := Interleave(g, t, preA1, preALam, preG, preG128,
                    wnafNa1, bitsNa1, wnafNaLam, bitsNaLam, wnafNg1, bitsNg1, wnafNg128, bitsNg128);
    StreamTotal(g, t);
    Recombined(g, a, G, na.v, k1, k2, ng.v, k3, k4);
  }

  lemma StreamTotal<P(!new)>(g: Group<P>, t: Streams<P>)
    ensures t.Sum(g, 0) == Comb(g, Weighted(t.sa), t.a, Weighted(t.sb), t.b, Weighted(t.sc), t.c, Weighted(t.sd), t.d)
  {
    hide Comb;
    TailStep(t.sa, 0);
    TailStep(t.sb, 0);
    TailStep(t.sc, 0);
    TailStep(t.sd, 0);
  }

  lemma CurveIsGroup<P(!new)>(g: Group<P>)
    requires IsCurve(g)
    ensures IsGroup(g)
  {
  }

  lemma SplitFits(a: int, r1: int, r2: int)
    requires IsSplit(a, r1, r2)
    ensures -TWO128 < r1 < TWO128 && -TWO128 < r2 < TWO128
  {
  }

  lemma HalvesFit(n: int, lo: int, hi: int)
    requires 0 <= n < TWO128 * TWO128 && 0 <= lo < TWO128 && n == lo + hi * TWO128
    ensures 0 <= hi < TWO128
  {
  }

  ghost function Hex(j: nat): (p: nat)
    ensures p >= 1
  {
    if j == 0 then 1 else 16 * Hex(j - 1)
  }

  lemma {:induction false} HexAdd(j: nat, k: nat)
    ensures Hex(j + k) == Hex(j) * Hex(k)
  {
    if k > 0 {
      HexAdd(j, k - 1);
      assert Hex(j + k) == 16 * Hex(j + (k - 1));
      assert 16 * (Hex(j) * Hex(k - 1)) == Hex(j) * (16 * Hex(k - 1));
    }
  }

  lemma Hex64()
    ensures Hex(64) == TWO128 * TWO128
  {
    assert Hex(4) == 0x10000;
    HexAdd(4, 4);
    HexAdd(8, 8);
    assert Hex(16) == 0x1_0000_0000_0000_0000;
    HexAdd(16, 16);
    HexAdd(32, 32);
  }

  /** 1 + 16 + ... + 16^(j-1): what the tables of ECmultGen add on top, and `fin` takes away again. */
  ghost function Ones(j: nat): int {
    if j == 0 then 0 else Ones(j - 1) + Hex(j - 1)
  }

  /** prec[j][i] is (i+1)*16^j times the generator, and fin is minus the sum of all the 16^j. */
  ghost predicate GenTables<P(!new)>(g: Group<P>, G: P, prec: seq<seq<P>>, fin: P) {
    && |prec| == 64
    && (forall j :: 0 <= j < 64 ==> |prec[j]| == 16)
    && (forall j, i :: 0 <= j < 64 && 0 <= i < 16 ==> prec[j][i] == Mul(g, (i + 1) * Hex(j), G))
    && fin == Mul(g, -Ones(64), G)
  }

  /** After j digits r holds low, the part of a below 16^j, offset by Ones(j); n is the rest of a. */
  ghost predicate GenPartial<P(!new)>(g: Group<P>, r: P, G: P, a: int, n: int, j: nat, low: int) {
    0 <= low < Hex(j) && a == low + n * Hex(j) && r == Mul(g, low + Ones(j), G)
  }

  lemma GenStep<P(!new)>(g: Group<P>, r: P, G: P, a: int, n: int, j: nat, low: int, e: P)
    requires IsGroup(g) && GenPartial(g, r, G, a, n, j, low) && e == Mul(g, (n % 16 + 1) * Hex(j), G)
    ensures GenPartial(g, g.add(r, e), G, a, n / 16, j + 1, low + n % 16 * Hex(j))
  {
    hide IsGroup, Mul;
    var p, d := Hex(j), n % 16;
    MulAdd(g, low + Ones(j), (d + 1) * p, G);
    GenArithmetic(low, d, n / 16, n, p);
    assert (d + 1) * p == d * p + p;
    assert low + Ones(j) + (d + 1) * p == low + d * p + Ones(j + 1);
  }

  lemma GenArithmetic(low: int, d: nat, q: int, n: int, p: nat)
    requires n == d + 16 * q && d < 16 && 0 <= low < p
    ensures low + n * p == low + d * p + q * (16 * p)
    ensures 0 <= low + d * p < 16 * p
  {
    MulLe(d, 15, p);
    MulLe(0, d, p);
    assert (d + 16 * q) * p == d * p + q * (16 * p);
  }

  lemma GenEntry<P(!new)>(g: Group<P>, G: P, prec: seq<seq<P>>, fin: P, j: nat, i: nat)
    requires GenTables(g, G, prec, fin) && j < 64 && i < 16
    ensures |prec| == 64 && |prec[j]| == 16 && prec[j][i] == Mul(g, (i + 1) * Hex(j), G)
    ensures fin == Mul(g, -Ones(64), G)
  {
    hide Hex, Mul, Ones;
  }

  /** ECmultGen: a*G from 64 tables of 16 points, one per hexadecimal digit; bits above 256 are ignored. */
  method ECmultGen<P(!new)>(g: Group<P>, a: Number, G: P, prec: seq<seq<P>>, fin: P) returns (r: P)
    requires IsGroup(g) && GenTables(g, G, prec, fin)
    ensures r == Mul(g, a.v % (TWO128 * TWO128), G)
  {
    hide IsGroup, Mul, GenPartial, GenTables, Hex, Ones;
    var n := a.v;
    GenEntry(g, G, prec, fin, 0, n % 16);
    GenFirst(g, prec[0][n % 16], G, n);
    r := prec[0][n % 16];
    ghost var low := n % 16;
    n := n / 16;
    for j := 1 to 64
      invariant GenPartial(g, r, G, a.v, n, j, low)
    {
      GenEntry(g, G, prec, fin, j, n % 16);
      GenStep(g, r, G, a.v, n, j, low, prec[j][n % 16]);
      r := g.add(r, prec[j][n % 16]);
      low := low + n % 16 * Hex(j);
      n := n / 16;
    }
    GenEntry(g, G, prec, fin, 0, 0);
    GenLast(g, r, G, a.v, n, low);
    r := g.add(r, fin);
  }

  lemma GenFirst<P(!new)>(g: Group<P>, e: P, G: P, a: int)
    requires e == Mul(g, (a % 16 + 1) * Hex(0), G)
    ensures GenPartial(g, e, G, a, a / 16, 1, a % 16)
  {
    hide Mul;
    assert Hex(1) == 16 && Ones(1) == 1;
  }

  lemma GenLast<P(!new)>(g: Group<P>, r: P, G: P, a: int, n: int, low: int)
    requires IsGroup(g) && GenPartial(g, r, G, a, n, 64, low)
    ensures g.add(r, Mul(g, -Ones(64), G)) == Mul(g, a % (TWO128 * TWO128), G)
  {
    hide IsGroup, Mul, Hex, Ones;
    MulAdd(g, low + Ones(64), -Ones(64), G);
    Hex64();
    LowPart(a, low, n, Hex(64));
  }

  lemma LowPart(a: int, low: int, n: int, p: nat)
    requires 0 <= low < p && a == low + n * p
    ensures a % p == low
  {
    var q := a / p;
    assert (q - n) * p == q * p - n * p;
    if q > n {
      MulLe(1, q - n, p);
    } else if q < n {
      MulLe(q - n, -1, p);
    }
  }
}
