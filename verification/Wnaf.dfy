/** The windowed non-adjacent form of a scalar. */
module Wnaf {
  import opened Powers

  const WORD := 0x1_0000_0000_0000_0000

  /** Conversion to a 64-bit int. */
  function Wrap64(x: int): int {
    (x + WORD / 2) % WORD - WORD / 2
  }

  /** `1 << k` as a 64-bit int: negative at 63, zero beyond. */
  function Shl1(k: nat): int {
    if k < 63 then Pow2(k) else if k == 63 then -(WORD / 2) else 0
  }

  /** What rsh_x returns: the mask is built in 64 bits, so at most 64 bits come back. */
  function Word(x: int, w: nat): int {
    Wrap64(x % (if w < 64 then Pow2(w) else WORD))
  }

  /** `word & (1 << (w-1)) != 0`; the shift gives zero for w = 0 and for w > 64. */
  predicate TopBit(word: int, w: nat) {
    1 <= w <= 64 && (word % WORD) / Pow2(w - 1) % 2 == 1
  }

  function Digit(x: int, w: nat): int {
    var word := Word(x, w);
    if TopBit(word, w) then Wrap64(word - Shl1(w)) else word
  }

  function Next(x: int, w: nat): int {
    x / Pow2(w) + if TopBit(Word(x, w), w) then 1 else 0
  }

  /** One step of the recoding loses nothing and leaves an odd digit of the window's size. */
  ghost predicate Exact(x: int, w: nat) {
    x == Digit(x, w) + Next(x, w) * Pow2(w) && Digit(x, w) % 2 == 1 && w >= 1 && -(Pow2(w - 1) as int) < Digit(x, w) < Pow2(w - 1)
  }

  lemma WrapIs(x: int, k: int)
    requires -(WORD / 2) <= x - k * WORD < WORD / 2
    ensures Wrap64(x) == x - k * WORD
  {
  }

  lemma WrapMod(u: nat)
    requires u < WORD
    ensures Wrap64(u) % WORD == u
  {
    WrapIs(u, if u < WORD / 2 then 0 else 1);
  }

  lemma WordIs(x: int, w: nat)
    requires 2 <= w <= 64
    ensures x % Pow2(w) < WORD && Word(x, w) == Wrap64(x % Pow2(w))
  {
    PowValues();
    PowMono(w, 64);
  }

  lemma Half(u: nat, h: nat)
    requires 0 < h && u < 2 * h
    ensures (u / h) % 2 == 1 <==> u >= h
  {
    if u >= h {
      assert u / h == 1;
    }
  }

  /** The digit is the residue of x nearest to zero, in every window up to 64 bits. */
  lemma DigitIs(x: int, w: nat)
    requires 2 <= w <= 64
    ensures var u, h := x % Pow2(w), Pow2(w - 1);
            && (TopBit(Word(x, w), w) <==> u >= h)
            && Digit(x, w) == if u >= h then u - 2 * h else u
  {
    hide Word, Wrap64;
    var u, h := x % Pow2(w), Pow2(w - 1);
    WordIs(x, w);
    WrapMod(u);
    Half(u, h);
    PowValues();
    if w < 63 {
      PowMono(w, 62);
      WrapIs(u, 0);
      if u >= h {
        WrapIs(u - 2 * h, 0);
      }
    } else if w == 63 {
      WrapIs(u, 0);
      if u >= h {
        WrapIs(u + WORD / 2, 1);
      }
    } else if u >= h {
      WrapIs(u, 1);
      WrapIs(u - WORD, 0);
    } else {
      WrapIs(u, 0);
    }
  }

  lemma WindowUpTo64(x: int, w: nat)
    requires 2 <= w <= 64 && x % 2 == 1
    ensures Exact(x, w)
  {
    hide Digit, Word, TopBit, Pow2;
    DigitIs(x, w);
    Doubled(w);
    WindowArithmetic(x, x % Pow2(w), x / Pow2(w), Pow2(w - 1), Pow2(w - 2));
  }

  lemma Doubled(w: nat)
    requires w >= 2
    ensures Pow2(w) == 2 * Pow2(w - 1) && Pow2(w - 1) == 2 * Pow2(w - 2)
  {
  }

  lemma WindowArithmetic(x: int, u: int, q: int, h: int, g: int)
    requires x == u + q * (2 * h) && 0 <= u < 2 * h && x % 2 == 1 && h == 2 * g
    ensures u % 2 == 1 && u != h
    ensures x == (u - 2 * h) + (q + 1) * (2 * h)
  {
    var m := q * h;
    assert q * (2 * h) == 2 * m && (q + 1) * (2 * h) == 2 * m + 2 * h;
    EvenSum(x, u, m, h, g);
  }

  lemma EvenSum(x: int, u: int, m: int, h: int, g: int)
    requires x == u + 2 * m && x % 2 == 1 && h == 2 * g
    ensures u % 2 == 1 && u != h
  {
  }

  lemma DigitBeyond64(w: nat)
    requires w > 64
    ensures Digit(WORD + 1, w) == 1 && Next(WORD + 1, w) == 0
  {
    PowValues();
    PowMono(65, w);
    assert Pow2(65) == 2 * WORD;
    WrapIs(1, 0);
    assert (WORD + 1) % WORD == 1;
    SmallQuotient(WORD + 1, Pow2(w));
  }

  lemma SmallQuotient(x: nat, y: nat)
    requires x < y
    ensures x / y == 0
  {
  }

  /** With a wider window the bits between 64 and w are lost. */
  lemma WindowBeyond64(w: nat)
    requires w > 64
    ensures !Exact(WORD + 1, w)
  {
    hide Digit, Next, Pow2;
    DigitBeyond64(w);
    assert Next(WORD + 1, w) * Pow2(w) == 0;
  }

  /** A one-bit window has no odd digit below 2^0. */
  lemma WindowBelow2(x: int, w: nat)
    requires w < 2
    ensures !Exact(x, w)
  {
    hide Digit, Next;
  }

  /** Exactly the windows from 2 to 64 bits recode every odd integer without loss. */
  lemma WindowExact(w: nat)
    ensures (forall x :: x % 2 == 1 ==> Exact(x, w)) <==> 2 <= w <= 64
  {
    hide Exact;
    if 2 <= w <= 64 {
      forall x | x % 2 == 1
        ensures Exact(x, w)
      {
        WindowUpTo64(x, w);
      }
    } else if w > 64 {
      WindowBeyond64(w);
      assert (WORD + 1) % 2 == 1;
    } else {
      WindowBelow2(1, w);
    }
  }

  /** The integer a digit string stands for, least significant digit first. */
  ghost function Weighted(s: seq<int>): int {
    if s == [] then 0 else s[0] + 2 * Weighted(s[1..])
  }

  lemma {:induction false} WeightedAppend(s: seq<int>, d: int)
    ensures Weighted(s + [d]) == Weighted(s) + d * Pow2(|s|)
  {
    if s == [] {
      assert s + [d] == [d];
      assert Weighted([d][1..]) == 0;
    } else {
      assert (s + [d])[1..] == s[1..] + [d];
      WeightedAppend(s[1..], d);
      assert 2 * (d * Pow2(|s| - 1)) == d * (2 * Pow2(|s| - 1));
    }
  }

  /** Digits are zero or odd and below 2^(w-1); between two non-zero ones there are at least w-1 zeros. */
  ghost predicate NonAdjacent(s: seq<int>, w: nat)
    requires w >= 1
  {
    && (forall i :: 0 <= i < |s| ==> s[i] == 0 || (s[i] % 2 == 1 && -(Pow2(w - 1) as int) < s[i] < Pow2(w - 1)))
    && (forall i, j :: 0 <= i < j < |s| && s[i] != 0 && s[j] != 0 ==> j - i >= w)
  }

  /** The digits of s from index |s| - k on are zero, and the recoding is complete below them. */
  ghost predicate Pending(s: seq<int>, x: int, zeroes: nat, a: int, w: nat) {
    && a == Weighted(s) + x * Pow2(|s| + zeroes)
    && -(Pow2(|s| + zeroes) as int) < 2 * Weighted(s) < Pow2(|s| + zeroes)
  }

  /** Where the next digit goes there is a slot, as long as something is left to recode. */
  lemma SlotLeft(s: seq<int>, x: int, zeroes: nat, a: int, w: nat, slots: nat)
    requires Pending(s, x, zeroes, a, w) && x != 0 && slots >= 1
    requires -(Pow2(slots - 1) as int) < a < Pow2(slots - 1)
    ensures |s| + zeroes < slots
  {
    var p := Pow2(|s| + zeroes);
    assert p <= x * p || x * p <= -(p as int) by {
      if x >= 1 { assert (x - 1) * p >= 0; } else { assert (-1 - x) * p >= 0; }
    }
    if |s| + zeroes >= slots {
      PowMono(slots, |s| + zeroes);
    }
  }

  lemma HalvePending(s: seq<int>, x: int, zeroes: nat, a: int, w: nat)
    requires Pending(s, x, zeroes, a, w) && x % 2 == 0
    ensures Pending(s, x / 2, zeroes + 1, a, w)
  {
    var p := Pow2(|s| + zeroes);
    assert Pow2(|s| + (zeroes + 1)) == 2 * p;
    assert x == 2 * (x / 2);
    assert 2 * (x / 2) * p == x / 2 * (2 * p);
  }

  lemma ZeroPending(s: seq<int>, x: int, zeroes: nat, a: int, w: nat)
    requires Pending(s, x, zeroes + 1, a, w)
    ensures Pending(s + [0], x, zeroes, a, w)
  {
    WeightedAppend(s, 0);
  }

  lemma DigitPending(s: seq<int>, x: int, a: int, w: nat)
    requires w >= 1 && Pending(s, x, 0, a, w) && Exact(x, w)
    ensures Pending(s + [Digit(x, w)], Next(x, w), w - 1, a, w)
  {
    hide Digit, Next;
    var d, p, q := Digit(x, w), Pow2(|s|), Pow2(w);
    WeightedAppend(s, d);
    PowAdd(|s|, w);
    assert |s + [d]| + (w - 1) == |s| + w;
    DigitArithmetic(x, d, Next(x, w), Weighted(s), p, Pow2(w - 1));
  }

  lemma DigitArithmetic(x: int, d: int, n: int, v: int, p: int, h: int)
    requires x == d + n * (2 * h) && -h < d < h && -p < 2 * v < p
    ensures v + x * p == v + d * p + n * (p * (2 * h))
    ensures -(p * (2 * h)) < 2 * (v + d * p) < p * (2 * h)
  {
    DigitValue(d, n, 2 * h, p);
    DigitBound(d, v, p, h);
  }

  lemma DigitValue(d: int, n: int, q: int, p: int)
    ensures (d + n * q) * p == d * p + n * (p * q)
  {
    assert n * q * p == n * (p * q);
  }

  lemma DigitBound(d: int, v: int, p: int, h: int)
    requires -h < d < h && -p < 2 * v < p
    ensures -(p * (2 * h)) < 2 * (v + d * p) < p * (2 * h)
  {
    var e := d * p;
    MulLe(d, h - 1, p);
    MulLe(1 - h, d, p);
    var g := h * p;
    assert (h - 1) * p == g - p && (1 - h) * p == p - g && p * (2 * h) == 2 * g;
  }

  lemma Smaller(x: int, w: nat)
    requires w >= 2 && Exact(x, w) && x != 0
    ensures Abs(Next(x, w)) < Abs(x)
  {
    hide Digit, Next;
    SmallerArithmetic(x, Digit(x, w), Next(x, w), Pow2(w - 1), Pow2(w - 2));
  }

  lemma SmallerArithmetic(x: int, d: int, n: int, h: int, g: int)
    requires x == d + n * (2 * h) && -h < d < h && h == 2 * g && g >= 1 && x != 0
    ensures Abs(n) < Abs(x)
  {
    var m := n * h;
    assert n * (2 * h) == 2 * m;
    MulLe(2, h, Abs(n));
    if n > 0 {
      MulLe(1, n, h);
      assert h * n == m;
    } else if n < 0 {
      MulLe(1, -n, h);
      assert h * -n == -m && -n * h == -m;
    }
  }

  function Abs(x: int): nat {
    if x < 0 then -x else x
  }

  /** Counting the pending zeros, the last non-zero digit is at least w positions back. */
  ghost predicate Gap(s: seq<int>, zeroes: nat, w: nat) {
    forall i :: 0 <= i < |s| && s[i] != 0 ==> |s| - i + zeroes >= w
  }

  lemma NonAdjacentZero(s: seq<int>, zeroes: nat, w: nat)
    requires w >= 1 && NonAdjacent(s, w) && Gap(s, zeroes + 1, w)
    ensures NonAdjacent(s + [0], w) && Gap(s + [0], zeroes, w)
  {
  }

  lemma NonAdjacentDigit(s: seq<int>, x: int, w: nat)
    requires w >= 1 && NonAdjacent(s, w) && Gap(s, 0, w) && Exact(x, w)
    ensures NonAdjacent(s + [Digit(x, w)], w) && Gap(s + [Digit(x, w)], w - 1, w)
  {
    hide Digit, Next;
  }

  /**
   * ecmult_wnaf: writes the digits of a into wnaf and returns their number.
   * With 129 slots every |a| < 2^128 fits.
   */
  method EcmultWnaf(wnaf: array<int>, a: int, w: nat) returns (ret: nat)
    requires 2 <= w <= 64
    requires a == 0 || (wnaf.Length >= 1 && -(Pow2(wnaf.Length - 1) as int) < a < Pow2(wnaf.Length - 1))
    modifies wnaf
    ensures ret <= wnaf.Length
    ensures Weighted(wnaf[..ret]) == a
    ensures NonAdjacent(wnaf[..ret], w)
  {
    hide Pending, Exact, NonAdjacent, Digit, Next, Word, TopBit, Gap, Pow2;
    var X, zeroes := a, 0;
    ret := 0;
    EmptyPending(a, w);
    assert wnaf[..0] == [];
    while X != 0
      invariant ret <= wnaf.Length
      invariant Pending(wnaf[..ret], X, zeroes, a, w)
      invariant NonAdjacent(wnaf[..ret], w) && Gap(wnaf[..ret], zeroes, w)
      decreases Abs(X)
    {
      ghost var before := X;
      while X % 2 == 0
        invariant X != 0 && Abs(X) <= Abs(before)
        invariant Pending(wnaf[..ret], X, zeroes, a, w)
        invariant NonAdjacent(wnaf[..ret], w) && Gap(wnaf[..ret], zeroes, w)
        decreases Abs(X)
      {
        HalvePending(wnaf[..ret], X, zeroes, a, w);
        WiderGap(wnaf[..ret], zeroes, w);
        zeroes := zeroes + 1;
        X := X / 2;
      }
      SlotLeft(wnaf[..ret], X, zeroes, a, w, wnaf.Length);
      WindowUpTo64(X, w);
      ghost var odd := X;
      var word := Word(X, w);
      X := X / Pow2(w);
      while zeroes > 0
        invariant ret + zeroes < wnaf.Length
        invariant Pending(wnaf[..ret], odd, zeroes, a, w)
        invariant NonAdjacent(wnaf[..ret], w) && Gap(wnaf[..ret], zeroes, w)
      {
        ZeroPending(wnaf[..ret], odd, zeroes - 1, a, w);
        NonAdjacentZero(wnaf[..ret], zeroes - 1, w);
        wnaf[ret] := 0;
        assert wnaf[..ret + 1] == wnaf[..ret] + [0];
        ret := ret + 1;
        zeroes := zeroes - 1;
      }
      DigitPending(wnaf[..ret], odd, a, w);
      NonAdjacentDigit(wnaf[..ret], odd, w);
      Smaller(odd, w);
      StepIs(odd, w);
      if TopBit(word, w) {
        X := X + 1;
        wnaf[ret] := Wrap64(word - Shl1(w));
      } else {
        wnaf[ret] := word;
      }
      assert wnaf[..ret + 1] == wnaf[..ret] + [Digit(odd, w)];
      zeroes := w - 1;
      ret := ret + 1;
    }
    Finished(wnaf[..ret], zeroes, a, w);
  }

  lemma EmptyPending(a: int, w: nat)
    requires w >= 1
    ensures Pending([], a, 0, a, w) && NonAdjacent([], w) && Gap([], 0, w)
  {
  }

  lemma Finished(s: seq<int>, zeroes: nat, a: int, w: nat)
    requires Pending(s, 0, zeroes, a, w)
    ensures Weighted(s) == a
  {
  }

  lemma WiderGap(s: seq<int>, zeroes: nat, w: nat)
    requires Gap(s, zeroes, w)
    ensures Gap(s, zeroes + 1, w)
  {
  }

  lemma StepIs(x: int, w: nat)
    ensures Digit(x, w) == if TopBit(Word(x, w), w) then Wrap64(Word(x, w) - Shl1(w)) else Word(x, w)
    ensures Next(x, w) == x / Pow2(w) + if TopBit(Word(x, w), w) then 1 else 0
  {
    hide Word, TopBit, Wrap64, Shl1, Pow2;
  }
}
