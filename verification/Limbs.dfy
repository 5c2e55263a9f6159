/** Multiplication of 128-bit numbers by 32-bit limbs. */
module Limbs {
  import opened Powers
  import opened BitSlices
  import opened UInt128

  type Limb = x: nat | x < 0x1_0000_0000

  function Hi(x: Word): Limb {
    x / TWO_32
  }

  function Lo(x: Word): Limb {
    x % TWO_32
  }

  lemma HiLo(x: Word)
    ensures x == TWO_32 * Hi(x) + Lo(x)
  {
  }

  /** The product of two limbs fits a word. */
  lemma LimbProduct(a: Limb, b: Limb)
    ensures Times(a, b) < TWO_64
  {
    ProductBound(a, b, TWO_32, TWO_32);
  }

  function Times32(a: Limb, b: Limb): Word {
    LimbProduct(a, b);
    Times(a, b)
  }

  /** operator*: rows of partial products, summed by columns, with the carries moved up at the end.  The
      digits name the limbs of the operands, 3 being the lowest. */
  method Multiply(x: UInt128, y: UInt128) returns (z: UInt128)
    ensures Value(z) == (Value(x) * Value(y)) % TWO_128
  {
    hide Hi, Lo, Times;
    var t0, t1, t2, t3 := Hi(x.upper), Lo(x.upper), Hi(x.lower), Lo(x.lower);
    var b0, b1, b2, b3 := Hi(y.upper), Lo(y.upper), Hi(y.lower), Lo(y.lower);
    var p33, p32, p31, p30 := Times32(t3, b3), Times32(t3, b2), Times32(t3, b1), Times32(t3, b0);
    var p23, p22, p21 := Times32(t2, b3), Times32(t2, b2), Times32(t2, b1);
    var p13, p12 := Times32(t1, b3), Times32(t1, b2);
    var p03 := Times32(t0, b3);

    // first row
    var fourth32: Word := Lo(p33);
    var third32: Word := Lo(p32) + Hi(p33);
    var second32: Word := Lo(p31) + Hi(p32);
    var first32: Word := Lo(p30) + Hi(p31);
    // second row
    third32 := third32 + Lo(p23);
    second32 := second32 + (Lo(p22) + Hi(p23));
    first32 := first32 + (Lo(p21) + Hi(p22));
    // third row
    second32 := second32 + Lo(p13);
    first32 := first32 + (Lo(p12) + Hi(p13));
    // fourth row
    first32 := first32 + Lo(p03);
    // move carry to next digit
    third32 := third32 + Hi(fourth32);
    second32 := second32 + Hi(third32);
    first32 := first32 + Hi(second32);
    z := UInt128(Lo(first32) * TWO_32 + Lo(second32), Lo(third32) * TWO_32 + Lo(fourth32));

    ghost var over := ProductColumns(x, y);
    HiLo(p33); HiLo(p32); HiLo(p31); HiLo(p30);
    HiLo(p23); HiLo(p22); HiLo(p21);
    HiLo(p13); HiLo(p12);
    HiLo(p03);
    HiLo(fourth32); HiLo(third32); HiLo(second32); HiLo(first32);
    over := over + Hi(first32) + Hi(p30) + Hi(p21) + Hi(p12) + Hi(p03);
    TimesIs(Value(x), Value(y));
    DivMod(Value(x) * Value(y), Value(z), over, TWO_128);
  }

  lemma TimesIs(x: nat, y: nat)
    ensures Times(x, y) == x * y
  {
  }

  /** The product, sorted by powers of 2^32; what lies beyond 2^128 is a multiple of it. */
  lemma ProductColumns(x: UInt128, y: UInt128) returns (over: nat)
    ensures var t0, t1, t2, t3 := Hi(x.upper), Lo(x.upper), Hi(x.lower), Lo(x.lower);
      var b0, b1, b2, b3 := Hi(y.upper), Lo(y.upper), Hi(y.lower), Lo(y.lower);
      Times(Value(x), Value(y)) ==
        Times(t3, b3) + TWO_32 * (Times(t3, b2) + Times(t2, b3)) +
        TWO_64 * (Times(t3, b1) + Times(t2, b2) + Times(t1, b3)) +
        TWO_64 * TWO_32 * (Times(t3, b0) + Times(t2, b1) + Times(t1, b2) + Times(t0, b3)) + TWO_128 * over
  {
    hide Hi, Lo, Times;
    var t0, t1, t2, t3 := Hi(x.upper), Lo(x.upper), Hi(x.lower), Lo(x.lower);
    var b0, b1, b2, b3 := Hi(y.upper), Lo(y.upper), Hi(y.lower), Lo(y.lower);
    over := Times(t2, b0) + Times(t1, b1) + Times(t0, b2) + TWO_32 * (Times(t1, b0) + Times(t0, b1)) +
      TWO_64 * Times(t0, b0);
    HiLo(x.upper); HiLo(x.lower); HiLo(y.upper); HiLo(y.lower);
    Row(t0, b0, b1, b2, b3);
    Row(t1, b0, b1, b2, b3);
    Row(t2, b0, b1, b2, b3);
    Row(t3, b0, b1, b2, b3);
    Column(t0, t1, t2, t3, Value(y));
    assert Value(x) == FourLimbs(t0, t1, t2, t3) && Value(y) == FourLimbs(b0, b1, b2, b3);
  }

  function FourLimbs(t0: nat, t1: nat, t2: nat, t3: nat): nat {
    TWO_64 * TWO_32 * t0 + TWO_64 * t1 + TWO_32 * t2 + t3
  }

  lemma Row(t: nat, b0: nat, b1: nat, b2: nat, b3: nat)
    ensures Times(t, FourLimbs(b0, b1, b2, b3)) ==
      Times(t, b3) + TWO_32 * Times(t, b2) + TWO_64 * Times(t, b1) + TWO_64 * TWO_32 * Times(t, b0)
  {
  }

  lemma Column(t0: nat, t1: nat, t2: nat, t3: nat, y: nat)
    ensures Times(FourLimbs(t0, t1, t2, t3), y) ==
      Times(t3, y) + TWO_32 * Times(t2, y) + TWO_64 * Times(t1, y) + TWO_64 * TWO_32 * Times(t0, y)
  {
  }
}
