/** 64-bit machine words and the 128-bit accumulators the field code builds from pairs of them. */
module Words {
  const W64 := 0x1_0000_0000_0000_0000
  const W128 := 0x1_0000_0000_0000_0000_0000_0000_0000_0000
  const B52 := 0x10_0000_0000_0000
  const B48 := 0x1_0000_0000_0000

  type u64 = x: int | 0 <= x < 0x1_0000_0000_0000_0000

  /** A 128-bit accumulator held, as in the source, in a high and a low word. */
  datatype U128 = U128(hi: u64, lo: u64) {
    function Val(): (v: int)
      ensures 0 <= v < W128
    {
      hi * W64 + lo
    }
  }

  /** The product, as repeated addition: the linear proofs then never meet a nonlinear term. */
  ghost function Prod(x: nat, y: nat): (p: nat) {
    if y == 0 then 0 else Prod(x, y - 1) + x
  }

  lemma {:induction false} ProdIsMul(x: nat, y: nat)
    ensures Prod(x, y) == x * y
  {
    if y > 0 {
      ProdIsMul(x, y - 1);
    }
  }

  lemma MulBound(x: nat, y: nat, xmax: nat, ymax: nat)
    requires x <= xmax && y <= ymax
    ensures 0 <= x * y <= xmax * ymax
  {
    assert 0 <= (xmax - x) * y;
    assert 0 <= xmax * (ymax - y);
  }

  lemma ProdBound(x: nat, y: nat, xmax: nat, ymax: nat)
    requires x <= xmax && y <= ymax
    ensures 0 <= Prod(x, y) <= xmax * ymax
  {
    ProdIsMul(x, y);
    MulBound(x, y, xmax, ymax);
  }

  /** bits.Mul64: no product of two words overflows the pair. */
  method Mul64(x: u64, y: u64) returns (r: U128)
    ensures r.Val() == Prod(x, y)
  {
    MulBound(x, y, W64 - 1, W64 - 1);
    ProdIsMul(x, y);
    r := U128(x * y / W64, x * y % W64);
  }

  /** bits.Add64. */
  method Add64(x: u64, y: u64, carry: u64) returns (sum: u64, carryOut: u64)
    requires carry <= 1
    ensures carryOut <= 1 && sum + carryOut * W64 == x + y + carry
  {
    sum := (x + y + carry) % W64;
    carryOut := (x + y + carry) / W64;
  }

  /** bits.Add64 on both words; the carry out of the high word is dropped, as in the source. */
  method Add128(acc: U128, other: U128) returns (r: U128)
    ensures var sum := acc.Val() + other.Val(); r.Val() == if sum < W128 then sum else sum - W128
  {
    var lo, carry := Add64(acc.lo, other.lo, 0);
    var hi, _ := Add64(acc.hi, other.hi, carry);
    r := U128(hi, lo);
  }

  /** acc + x*y, the step the source's comments call AddMul64s. */
  method AddMul(acc: U128, x: u64, y: u64) returns (r: U128)
    ensures acc.Val() + Prod(x, y) < W128 ==> r.Val() == acc.Val() + Prod(x, y)
  {
    var m := Mul64(x, y);
    r := Add128(acc, m);
  }

  /** acc + v*y for a 128-bit v: the product's high word is `him + v.hi*y` on 64 bits. */
  method AddMulWide(acc: U128, v: U128, y: u64) returns (r: U128)
    ensures v.hi == 0 && acc.Val() + Prod(v.lo, y) < W128 ==> r.Val() == acc.Val() + Prod(v.lo, y)
  {
    var m := Mul64(v.lo, y);
    var wide := U128((m.hi + v.hi * y) % W64, m.lo);
    r := Add128(acc, wide);
  }

  /** The 128-bit right shift by 52, `lo>>52 | hi<<12` in the low word. */
  method Rsh52(v: U128) returns (r: U128)
    ensures r.Val() == v.Val() / B52
    ensures v.Val() / B52 < W64 ==> r.hi == 0
  {
    r := U128(v.hi / B52, v.lo / B52 + (v.hi * 0x1000) % W64);
  }

  /** `lo & M`: the low 52 bits. */
  method Low52(v: U128) returns (r: u64)
    ensures r == v.Val() % B52 && r < B52
  {
    r := v.lo % B52;
  }

  /** The two halves that Rsh52 joins with a bitwise or never overlap, so adding them is the same. */
  lemma OrIsAdd(lo: bv64, hi: bv64)
    ensures (lo >> 52) | (hi << 12) == (lo >> 52) + (hi << 12)
  {
  }
}
