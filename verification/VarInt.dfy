/** Variable-length integers, and the packing of amounts. */
module VarInt {
  import opened Utxo

  type Bytes = seq<nat>

  const W16 := 0x1_0000
  const W32 := 0x1_0000_0000

  /** The k low bytes of v, lowest first. */
  function LittleEndian(v: nat, k: nat): (b: Bytes)
    ensures |b| == k
  {
    if k == 0 then [] else [v % 256] + LittleEndian(v / 256, k - 1)
  }

  function FromLittleEndian(b: Bytes): nat {
    if b == [] then 0 else b[0] + 256 * FromLittleEndian(b[1..])
  }

  function Pow256(k: nat): nat {
    if k == 0 then 1 else 256 * Pow256(k - 1)
  }

  lemma {:induction false} LittleEndianBack(v: nat, k: nat)
    requires v < Pow256(k)
    ensures FromLittleEndian(LittleEndian(v, k)) == v
  {
    if k > 0 {
      LittleEndianBack(v / 256, k - 1);
      assert LittleEndian(v, k)[1..] == LittleEndian(v / 256, k - 1);
    }
  }

  lemma Widths()
    ensures Pow256(2) == W16 && Pow256(4) == W32 && Pow256(8) == W64
  {
    assert Pow256(1) == 256;
    assert Pow256(3) == 256 * W16;
    assert Pow256(4) == W32;
    assert Pow256(5) == 256 * W32;
    assert Pow256(6) == W16 * W32;
    assert Pow256(7) == 256 * W16 * W32;
  }

  /** The encoding of v. */
  function VarBytes(v: nat): (b: Bytes)
    ensures |b| >= 1
  {
    if v < 0xfd then [v]
    else if v < W16 then [0xfd] + LittleEndian(v, 2)
    else if v < W32 then [0xfe] + LittleEndian(v, 4)
    else [0xff] + LittleEndian(v, 8)
  }

  function VLenSize(v: nat): (n: nat)
    ensures n == |VarBytes(v)|
  {
    if v < 0xfd then 1 else if v < W16 then 3 else if v < W32 then 5 else 9
  }

  /** VULe; VLen is the same, but for its result's type. Too short a buffer gives 0, 0. */
  function VULe(b: Bytes): (nat, nat) {
    if |b| == 0 then (0, 0)
    else if b[0] == 0xfd then if |b| >= 3 then (FromLittleEndian(b[1..3]), 3) else (0, 0)
    else if b[0] == 0xfe then if |b| >= 5 then (FromLittleEndian(b[1..5]), 5) else (0, 0)
    else if b[0] == 0xff then if |b| >= 9 then (FromLittleEndian(b[1..9]), 9) else (0, 0)
    else (b[0], 1)
  }

  /** What was put is read back, whatever follows. */
  lemma ReadBack(v: nat, rest: Bytes)
    requires v < W64
    ensures VULe(VarBytes(v) + rest) == (v, VLenSize(v))
  {
    var b := VarBytes(v) + rest;
    Widths();
    if v < 0xfd {
    } else if v < W16 {
      assert b[1..3] == LittleEndian(v, 2);
      LittleEndianBack(v, 2);
    } else if v < W32 {
      assert b[1..5] == LittleEndian(v, 4);
      LittleEndianBack(v, 4);
    } else {
      assert b[1..9] == LittleEndian(v, 8);
      LittleEndianBack(v, 8);
    }
  }

  predicate AllBytes(b: Bytes) {
    forall i :: 0 <= i < |b| ==> b[i] < 256
  }

  lemma {:induction false} LittleEndianOnly(b: Bytes)
    requires AllBytes(b)
    ensures LittleEndian(FromLittleEndian(b), |b|) == b
  {
    if b != [] {
      LittleEndianOnly(b[1..]);
      assert b == [b[0]] + b[1..];
      Digit(b[0], FromLittleEndian(b[1..]));
    }
  }

  lemma Digit(d: nat, v: nat)
    requires d < 256
    ensures (d + 256 * v) % 256 == d && (d + 256 * v) / 256 == v
  {
  }

  lemma {:induction false} LittleEndianBytes(v: nat, k: nat)
    ensures AllBytes(LittleEndian(v, k))
  {
    if k > 0 {
      LittleEndianBytes(v / 256, k - 1);
    }
  }

  lemma LittleEndianIs(v: nat, k: nat, b: Bytes)
    requires v < Pow256(k)
    ensures b == LittleEndian(v, k) <==> AllBytes(b) && |b| == k && FromLittleEndian(b) == v
  {
    LittleEndianBack(v, k);
    LittleEndianBytes(v, k);
    if AllBytes(b) {
      LittleEndianOnly(b);
    }
  }

  lemma Places(b: Bytes)
    ensures |b| == 2 ==> FromLittleEndian(b) == b[0] + 0x100 * b[1]
    ensures |b| == 4 ==> FromLittleEndian(b) == b[0] + 0x100 * b[1] + 0x10000 * b[2] + 0x1000000 * b[3]
    ensures |b| == 8 ==> (
      FromLittleEndian(b) == b[0] + 0x100 * b[1] + 0x10000 * b[2] + 0x1000000 * b[3]
                             + 0x100000000 * b[4] + 0x10000000000 * b[5] + 0x1000000000000 * b[6] + 0x100000000000000 * b[7])
  {
    if |b| >= 4 {
      assert b[1..][1..] == b[2..];
      Pair(b);
      Pair(b[2..]);
      if |b| == 8 {
        Pair(b[4..]);
        Pair(b[6..]);
        assert b[2..][2..] == b[4..] && b[4..][2..] == b[6..] && b[6..][2..] == [];
      } else if |b| == 4 {
        assert b[2..][2..] == [];
      }
    } else if |b| == 2 {
      Pair(b);
      assert b[2..] == [];
    }
  }

  lemma Pair(b: Bytes)
    requires |b| >= 2
    ensures FromLittleEndian(b) == b[0] + 256 * b[1] + 65536 * FromLittleEndian(b[2..])
  {
    assert b[1..][1..] == b[2..] && b[1..][0] == b[1];
  }

  /** The encoding: the shortest form that holds the number, marked by its first byte, lowest byte first. */
  lemma VarBytesAre(v: nat, b: Bytes)
    requires v < W64 && AllBytes(b)
    ensures b == VarBytes(v) <==>
      if v < 0xfd then |b| == 1 && b[0] == v
      else if v < 0x10000 then |b| == 3 && b[0] == 0xfd && v == b[1] + 0x100 * b[2]
      else if v < 0x100000000 then
        |b| == 5 && b[0] == 0xfe && v == b[1] + 0x100 * b[2] + 0x10000 * b[3] + 0x1000000 * b[4]
      else
        && |b| == 9 && b[0] == 0xff
        && v == b[1] + 0x100 * b[2] + 0x10000 * b[3] + 0x1000000 * b[4]
              + 0x100000000 * b[5] + 0x10000000000 * b[6] + 0x1000000000000 * b[7] + 0x100000000000000 * b[8]
  {
    hide LittleEndian, FromLittleEndian, Pow256;
    Widths();
    if v >= 0xfd && |b| > 0 {
      var rest := b[1..];
      assert b == [b[0]] + rest;
      Places(rest);
      LittleEndianIs(v, if v < W16 then 2 else if v < W32 then 4 else 8, rest);
    }
  }

  /** PutULe, into b from position of on. */
  method PutULe(b: array<nat>, of: nat, v: nat) returns (n: nat)
    requires v < W64 && of + VLenSize(v) <= b.Length
    modifies b
    ensures n == VLenSize(v) && b[..of + n] == old(b[..of]) + VarBytes(v)
  {
    var bytes := VarBytes(v);
    n := |bytes|;
    for i := 0 to n
      invariant b[..of + i] == old(b[..of]) + bytes[..i]
    {
      b[of + i] := bytes[i];
      assert b[..of + i + 1] == b[..of + i] + [bytes[i]];
    }
  }

  // Amounts.

  function Pow10(e: nat): nat {
    if e == 0 then 1 else 10 * Pow10(e - 1)
  }

  /** How many zeros a packed value appends, and what it appends them to. */
  function Exponent(x: nat): nat {
    if x == 0 then 0 else (x - 1) % 10
  }

  function Mantissa(x: nat): nat {
    if x == 0 then 0
    else
      var z := (x - 1) / 10;
      if Exponent(x) < 9 then z / 9 * 10 + z % 9 + 1 else z + 1
  }

  /** The amount a packed value x stands for. */
  function Unpack(x: nat): nat {
    Pow10(Exponent(x)) * Mantissa(x)
  }

  /** n without its trailing zeros, up to nine of them. */
  function Strip(n: nat, e: nat): (nat, nat)
    requires e <= 9
    decreases 9 - e
  {
    if n % 10 == 0 && e < 9 then Strip(n / 10, e + 1) else (n, e)
  }

  function Join(m: nat, e: nat): int {
    if e < 9 then 1 + (m / 10 * 9 + m % 10 - 1) * 10 + e else 1 + (m - 1) * 10 + 9
  }

  function Pack(n: nat): int {
    if n == 0 then 0 else var (m, e) := Strip(n, 0); Join(m, e)
  }

  lemma JoinParts(m: nat, e: nat)
    requires m > 0 && e <= 9 && (e < 9 ==> m % 10 != 0)
    ensures 0 < Join(m, e) <= 10 * m + 10 && Exponent(Join(m, e)) == e && Mantissa(Join(m, e)) == m
  {
    var x := Join(m, e);
    if e < 9 {
      var z := m / 10 * 9 + (m % 10 - 1);
      assert x - 1 == z * 10 + e;
      assert (x - 1) % 10 == e && (x - 1) / 10 == z;
      assert z / 9 == m / 10 && z % 9 == m % 10 - 1;
    }
  }

  lemma {:induction false} StripKeeps(n: nat, e: nat)
    requires n > 0 && e <= 9
    ensures var (m, e') := Strip(n, e);
            0 < m <= n && e <= e' <= 9 && m * Pow10(e') == n * Pow10(e) && (e' < 9 ==> m % 10 != 0)
    decreases 9 - e
  {
    if n % 10 == 0 && e < 9 {
      StripKeeps(n / 10, e + 1);
      TenTimes(n / 10, e);
      assert n == 10 * (n / 10);
    }
  }

  lemma TenTimes(n: nat, e: nat)
    ensures n * Pow10(e + 1) == (10 * n) * Pow10(e)
  {
  }

  /** Unpacking undoes packing. */
  lemma UnpackPack(n: nat)
    ensures 0 <= Pack(n) <= 10 * n + 10 && Unpack(Pack(n)) == n
  {
    hide Join, Exponent, Mantissa, Strip;
    if n > 0 {
      StripKeeps(n, 0);
      var (m, e) := Strip(n, 0);
      JoinParts(m, e);
      OnePow(n);
    } else {
      Nothing();
    }
  }

  lemma OnePow(n: nat)
    ensures n * Pow10(0) == n
  {
  }

  lemma Nothing()
    ensures Unpack(0) == 0
  {
  }

  /** Amounts up to this one are packed into 64 bits; all the coins there can ever be are far fewer. */
  const PACKABLE := 1800000000000000000

  /** CompressAmount, in 64-bit arithmetic. */
  method CompressAmount(amount: nat) returns (x: nat)
    requires amount < W64
    ensures x < W64
    ensures amount <= PACKABLE ==> x == Pack(amount)
  {
    if amount == 0 {
      return 0;
    }
    hide Unpack, Strip, Join;
    UnpackPack(amount);
    var n, e := StripZeros(amount);
    x := Joined(n, e);
  }

  /** The end of CompressAmount. */
  method Joined(m: nat, e: nat) returns (x: nat)
    requires m > 0
    ensures x < W64 && (0 <= Join(m, e) < W64 ==> x == Join(m, e))
  {
    var n := m;
    if e < 9 {
      var d := n % 10;
      n := n / 10;
      x := (1 + (n * 9 + d - 1) * 10 + e) % W64;
    } else {
      x := (1 + (n - 1) * 10 + 9) % W64;
    }
  }

  method StripZeros(amount: nat) returns (n: nat, e: nat)
    requires amount > 0
    ensures n > 0 && e <= 9 && (n, e) == Strip(amount, 0)
  {
    n, e := amount, 0;
    while n % 10 == 0 && e < 9
      invariant 0 < n && 0 <= e <= 9 && Strip(n, e) == Strip(amount, 0)
      decreases 9 - e
    {
      n := n / 10;
      e := e + 1;
    }
  }

  /** DecompressAmount, in 64-bit arithmetic. */
  method DecompressAmount(packed: nat) returns (n: nat)
    requires packed < W64
    ensures n < W64
    ensures Unpack(packed) < W64 ==> n == Unpack(packed)
  {
    if packed == 0 {
      Nothing();
      return 0;
    }
    hide Unpack, Pow10;
    var m, e := Parted(packed);
    MantissaFits(packed);
    UnpackIs(packed);
    n := Shift(m, e);
  }

  lemma UnpackIs(x: nat)
    ensures Unpack(x) == Pow10(Exponent(x)) * Mantissa(x)
  {
  }

  /** The beginning of DecompressAmount. */
  method Parted(packed: nat) returns (n: nat, e: nat)
    requires 0 < packed < W64
    ensures n < W64 && e == Exponent(packed) && (Mantissa(packed) < W64 ==> n == Mantissa(packed))
  {
    var x := packed - 1;
    e := x % 10;
    x := x / 10;
    if e < 9 {
      var d := x % 9 + 1;
      x := x / 9;
      n := (x * 10 + d) % W64;
    } else {
      n := x + 1;
    }
  }

  lemma MantissaFits(x: nat)
    ensures Mantissa(x) <= Unpack(x)
  {
    Pow10Positive(Exponent(x));
    AtLeast(Pow10(Exponent(x)), Mantissa(x));
  }

  /** The loop that appends the zeros. */
  method Shift(m: nat, k: nat) returns (n: nat)
    requires m < W64
    ensures n < W64 && (Pow10(k) * m < W64 ==> n == Pow10(k) * m)
  {
    n := m;
    var e := k;
    while e != 0
      invariant 0 <= e && n < W64 && (Pow10(k) * m < W64 ==> Pow10(e) * n == Pow10(k) * m)
      decreases e
    {
      ShiftOne(n, e);
      n := n * 10 % W64;
      e := e - 1;
    }
    OnePow(n);
  }

  lemma ShiftOne(n: nat, e: nat)
    requires e > 0
    ensures Pow10(e) * n == Pow10(e - 1) * (10 * n) && Pow10(e) * n >= 10 * n
  {
    TenTimes(n, e - 1);
    Pow10Positive(e - 1);
    AtLeast(Pow10(e - 1), 10 * n);
  }

  lemma AtLeast(p: nat, n: nat)
    ensures p > 0 ==> p * n >= n
  {
  }

  lemma {:induction false} Pow10Positive(e: nat)
    ensures Pow10(e) > 0
  {
    if e > 0 {
      Pow10Positive(e - 1);
    }
  }

  /** DecompressAmount gives back what CompressAmount was given. */
  method AmountRoundTrip(amount: nat) returns (back: nat)
    requires amount <= PACKABLE
    ensures back == amount
  {
    UnpackPack(amount);
    var x := CompressAmount(amount);
    back := DecompressAmount(x);
  }
}
