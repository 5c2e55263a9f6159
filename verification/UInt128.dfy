/** 128-bit arithmetic on two 64-bit halves. */
module UInt128 {
  import opened Powers
  import opened BitSlices

  const TWO_32: nat := 0x1_0000_0000
  const TWO_128: nat := 0x1_0000_0000_0000_0000_0000_0000_0000_0000

  type Word = x: nat | x < 0x1_0000_0000_0000_0000

  datatype UInt128 = UInt128(upper: Word, lower: Word)

  function Value(x: UInt128): (v: nat)
    ensures v < TWO_128
  {
    TWO_64 * x.upper + x.lower
  }

  lemma SameValue(x: UInt128, y: UInt128)
    ensures Value(x) == Value(y) <==> x == y
  {
  }

  /** A machine word keeps the low 64 bits. */
  function Wrap(x: int): Word {
    x % TWO_64
  }

  function Plus(x: UInt128, y: UInt128): UInt128 {
    var lower := Wrap(x.lower + y.lower);
    UInt128(Wrap(x.upper + y.upper + if lower < x.lower then 1 else 0), lower)
  }

  lemma PlusIsSum(x: UInt128, y: UInt128)
    ensures Value(Plus(x, y)) == (Value(x) + Value(y)) % TWO_128
  {
    var carry: nat := if x.lower + y.lower >= TWO_64 then 1 else 0;
    WrapOnce(x.lower + y.lower);
    WrapOnce(x.upper + y.upper + carry);
    hide Wrap;
    var over: nat := if x.upper + y.upper + carry >= TWO_64 then 1 else 0;
    DivMod(Value(x) + Value(y), Value(Plus(x, y)), over, TWO_128);
  }

  lemma WrapOnce(x: int)
    requires 0 - TWO_64 <= x < 2 * TWO_64
    ensures Wrap(x) == if x < 0 then x + TWO_64 else if x < TWO_64 then x else x - TWO_64
  {
  }

  function Minus(x: UInt128, y: UInt128): UInt128 {
    var lower := Wrap(x.lower - y.lower);
    UInt128(Wrap(x.upper - y.upper - if lower > x.lower then 1 else 0), lower)
  }

  lemma MinusIsDifference(x: UInt128, y: UInt128)
    ensures Value(Minus(x, y)) == (Value(x) - Value(y)) % TWO_128
  {
    var borrow := if x.lower < y.lower then 1 else 0;
    WrapOnce(x.lower - y.lower);
    WrapOnce(x.upper - y.upper - borrow);
    hide Wrap;
  }

  predicate Greater(x: UInt128, y: UInt128) {
    if x.upper == y.upper then x.lower > y.lower else x.upper > y.upper
  }

  predicate Less(x: UInt128, y: UInt128) {
    if x.upper == y.upper then x.lower < y.lower else x.upper < y.upper
  }

  lemma OrderIsOrder(x: UInt128, y: UInt128)
    ensures Greater(x, y) <==> Value(x) > Value(y)
    ensures Less(x, y) <==> Value(x) < Value(y)
  {
  }

  /** Shifts of a word by less than its width. */
  function Shl64(x: Word, s: nat): Word {
    Wrap(x * Pow2(s))
  }

  function Shr64(x: Word, s: nat): Word {
    Quotient(x, Pow2(s))
  }

  function Quotient(x: nat, p: nat): (q: nat)
    requires p > 0
    ensures q <= x
  {
    QuotientBound(x, p);
    x / p
  }

  function ShiftLeft(x: UInt128, rhs: UInt128): UInt128 {
    var shift := rhs.lower;
    if rhs.upper != 0 || shift >= 128 then UInt128(0, 0)
    else if shift == 64 then UInt128(x.lower, 0)
    else if shift == 0 then x
    else if shift < 64 then
      UInt128(Wrap(Shl64(x.upper, shift) + Shr64(x.lower, 64 - shift)), Shl64(x.lower, shift))
    else UInt128(Shl64(x.lower, shift - 64), 0)
  }

  function ShiftRight(x: UInt128, rhs: UInt128): UInt128 {
    var shift := rhs.lower;
    if rhs.upper != 0 || shift >= 128 then UInt128(0, 0)
    else if shift == 64 then UInt128(0, x.upper)
    else if shift == 0 then x
    else if shift < 64 then
      UInt128(Shr64(x.upper, shift), Wrap(Shl64(x.upper, 64 - shift) + Shr64(x.lower, shift)))
    else UInt128(0, Shr64(x.upper, shift - 64))
  }

  /** p * q is a word: cutting a word at q. */
  lemma CutWord(x: Word, p: nat, q: nat)
    requires p > 0 && q > 0 && p * q == TWO_64
    ensures x == q * (x / q) + x % q && x / q < p
    ensures Wrap(x * p) == p * (x % q) && p * (x % q) + p <= TWO_64
  {
    var h, l := x / q, x % q;
    assert x == q * h + l;
    assert x * p == (p * q) * h + p * l;
    assert p * l <= p * (q - 1) == p * q - p;
    DivMod(x * p, p * l, h, TWO_64);
  }

  /** The shifts of a word, by the halves into which the number of places cuts it. */
  lemma WordShift(x: Word, s: nat)
    requires 0 < s < 64
    ensures var p, q := Pow2(s), Pow2(64 - s);
      && p > 0 && q > 0 && p * q == TWO_64
      && x == q * (x / q) + x % q
      && Shl64(x, s) == p * (x % q) <= TWO_64 - p
      && Shr64(x, 64 - s) == x / q < p
  {
    hide Wrap, Pow2;
    PowerOfWord(s);
    CutWord(x, Pow2(s), Pow2(64 - s));
  }

  lemma ShiftLeftWithin(x: UInt128, s: nat)
    requires 0 < s < 64
    ensures Value(UInt128(Wrap(Shl64(x.upper, s) + Shr64(x.lower, 64 - s)), Shl64(x.lower, s))) ==
      (Value(x) * Pow2(s)) % TWO_128
  {
    hide Wrap, Pow2, Shl64, Shr64;
    WordShift(x.upper, s);
    WordShift(x.lower, s);
    var q := Pow2(64 - s);
    WrapOnce(Shl64(x.upper, s) + Shr64(x.lower, 64 - s));
    ShiftedHalves(x.upper, x.lower, Pow2(s), q, Shl64(x.upper, s), Shl64(x.lower, s), Value(x));
  }

  /** The two halves after a shift; what leaves the high half is a multiple of 2^128. */
  lemma ShiftedHalves(u: nat, l: nat, p: nat, q: nat, ul: nat, ll: nat, v: nat)
    requires p > 0 && q > 0 && p * q == TWO_64 && v == TWO_64 * u + l
    requires u == q * (u / q) + u % q && ul == p * (u % q) <= TWO_64 - p
    requires l == q * (l / q) + l % q && ll == p * (l % q) <= TWO_64 - p && l / q < p
    ensures TWO_64 * (ul + l / q) + ll == (v * p) % TWO_128
  {
    Rearrange(u, p, q, u / q, u % q);
    Rearrange(l, p, q, l / q, l % q);
    assert v * p == TWO_64 * (u * p) + l * p;
    DivMod(v * p, TWO_64 * (ul + l / q) + ll, u / q, TWO_128);
  }

  lemma Rearrange(x: nat, p: nat, q: nat, h: nat, l: nat)
    requires x == q * h + l && p * q == TWO_64
    ensures x * p == TWO_64 * h + p * l
  {
    assert (q * h + l) * p == (p * q) * h + p * l;
  }

  lemma PowerOfWord(s: nat)
    requires s <= 64
    ensures Pow2(s) * Pow2(64 - s) == TWO_64
  {
    var w := WordSize();
    Pow2Add(s, 64 - s);
  }

  /** From 64 places on, only the low half is left, in the high half. */
  lemma ShiftLeftPast(x: UInt128, s: nat)
    requires 64 <= s < 128
    ensures Value(UInt128(Shl64(x.lower, s - 64), 0)) == (Value(x) * Pow2(s)) % TWO_128
  {
    hide Pow2;
    var u, l, p := x.upper, x.lower, Pow2(s - 64);
    SplitPower(s);
    var a := l * p;
    assert a == TWO_64 * (a / TWO_64) + a % TWO_64;
    assert (TWO_64 * u + l) * (TWO_64 * p) == TWO_128 * (u * p) + TWO_64 * a;
    DivMod((TWO_64 * u + l) * (TWO_64 * p), TWO_64 * (a % TWO_64), u * p + a / TWO_64, TWO_128);
  }

  lemma SplitPower(s: nat)
    requires s >= 64
    ensures Pow2(s) == TWO_64 * Pow2(s - 64)
    ensures s >= 128 ==> Pow2(s) == TWO_128 * Pow2(s - 128)
  {
    var w := WordSize();
    Pow2Add(w, s - 64);
    if s >= 128 { Pow2Add(w, s - 128); }
  }

  lemma NothingLeft(x: nat, p: nat)
    ensures (x * (TWO_128 * p)) % TWO_128 == 0
  {
    assert x * (TWO_128 * p) == TWO_128 * (x * p);
    DivMod(x * (TWO_128 * p), 0, x * p, TWO_128);
  }

  /** The left shift multiplies, modulo 2^128. */
  lemma ShiftLeftIs(x: UInt128, rhs: UInt128)
    ensures Value(ShiftLeft(x, rhs)) == (Value(x) * Pow2(Value(rhs))) % TWO_128
  {
    hide Pow2, Shl64, Shr64, Wrap, Value, ShiftLeft;
    var s := Value(rhs);
    ShiftLeftCases(x, rhs);
    if s >= 128 {
      SplitPower(s);
      NothingLeft(Value(x), Pow2(s - 128));
    } else if s >= 64 {
      ShiftLeftPast(x, s);
    } else if s > 0 {
      ShiftLeftWithin(x, s);
    } else {
      NoShift();
      SmallMod(Value(x), TWO_128);
    }
  }

  lemma ShiftNone(x: Word)
    ensures Shl64(x, 0) == x && Shr64(x, 0) == x
  {
    NoShift();
    hide Pow2;
  }

  /** The branches of the left shift by the number of places. */
  lemma ShiftLeftCases(x: UInt128, rhs: UInt128)
    ensures var s := Value(rhs);
      ShiftLeft(x, rhs) ==
        if s >= 128 then UInt128(0, 0)
        else if s >= 64 then UInt128(Shl64(x.lower, s - 64), 0)
        else if s > 0 then UInt128(Wrap(Shl64(x.upper, s) + Shr64(x.lower, 64 - s)), Shl64(x.lower, s))
        else x
    ensures Value(UInt128(0, 0)) == 0
  {
    hide Pow2, Shl64, Shr64, Wrap;
    ShiftNone(x.upper);
    ShiftNone(x.lower);
  }

  /** The branches of the right shift. */
  lemma ShiftRightCases(x: UInt128, rhs: UInt128)
    ensures var s := Value(rhs);
      ShiftRight(x, rhs) ==
        if s >= 128 then UInt128(0, 0)
        else if s >= 64 then UInt128(0, Shr64(x.upper, s - 64))
        else if s > 0 then UInt128(Shr64(x.upper, s), Wrap(Shl64(x.upper, 64 - s) + Shr64(x.lower, s)))
        else x
    ensures Value(UInt128(0, 0)) == 0
  {
    hide Pow2, Shl64, Shr64, Wrap;
    ShiftNone(x.upper);
    ShiftNone(x.lower);
  }

  lemma NoShift()
    ensures Pow2(0) == 1
  {
  }

  lemma ShiftRightWithin(x: UInt128, s: nat)
    requires 0 < s < 64
    ensures Value(UInt128(Shr64(x.upper, s), Wrap(Shl64(x.upper, 64 - s) + Shr64(x.lower, s)))) == Value(x) / Pow2(s)
  {
    hide Wrap, Pow2, Shl64, Shr64;
    WordShift(x.upper, 64 - s);
    WordShift(x.lower, 64 - s);
    assert 64 - (64 - s) == s;
    var u, l, p, q := x.upper, x.lower, Pow2(s), Pow2(64 - s);
    WrapOnce(q * (u % p) + l / p);
    Commuted(p, q);
    Scaled(p, q, u / p, u % p);
    ShiftedDownHalves(u, l, p, u / p, q * (u % p), u % p, l / p, l % p);
  }

  lemma ShiftedDownHalves(u: nat, l: nat, p: nat, uh: nat, high: nat, ul: nat, lh: nat, ll: nat)
    requires u == p * uh + ul && l == p * lh + ll && ll < p
    requires TWO_64 * (p * uh + ul) == p * (TWO_64 * uh + high)
    ensures TWO_64 * uh + (high + lh) == (TWO_64 * u + l) / p
  {
    Distribute(p, TWO_64 * uh + high, lh);
    DivMod(TWO_64 * u + l, ll, TWO_64 * uh + high + lh, p);
  }

  lemma Scaled(p: nat, q: nat, h: nat, l: nat)
    requires p * q == TWO_64
    ensures TWO_64 * (p * h + l) == p * (TWO_64 * h + q * l)
  {
    Associate(p, q, l);
    Distribute(p, TWO_64 * h, q * l);
    assert p * (TWO_64 * h) == TWO_64 * (p * h);
  }

  lemma Commuted(p: nat, q: nat)
    ensures p * q == q * p
  {
  }

  lemma ShiftRightPast(x: UInt128, s: nat)
    requires 64 <= s < 128
    ensures Value(UInt128(0, Shr64(x.upper, s - 64))) == Value(x) / Pow2(s)
  {
    hide Pow2;
    var u, l, p := x.upper, x.lower, Pow2(s - 64);
    SplitPower(s);
    var h, r := u / p, u % p;
    assert u == p * h + r;
    assert TWO_64 * u + l == (TWO_64 * p) * h + (TWO_64 * r + l) by {
      assert TWO_64 * (p * h) == (TWO_64 * p) * h;
    }
    DivMod(TWO_64 * u + l, TWO_64 * r + l, h, TWO_64 * p);
  }

  lemma PowersGrow(v: nat, s: nat)
    requires v < TWO_128 && s >= 128
    ensures v / Pow2(s) == 0
  {
    SplitPower(s);
    assert Pow2(s) >= TWO_128;
    DivMod(v, v, 0, Pow2(s));
  }

  /** The right shift divides. */
  lemma ShiftRightIs(x: UInt128, rhs: UInt128)
    ensures Value(ShiftRight(x, rhs)) == Value(x) / Pow2(Value(rhs))
  {
    hide Pow2, Shl64, Shr64, Wrap, Value, ShiftRight;
    var s := Value(rhs);
    ShiftRightCases(x, rhs);
    if s >= 128 {
      PowersGrow(Value(x), s);
    } else if s >= 64 {
      ShiftRightPast(x, s);
    } else if s > 0 {
      ShiftRightWithin(x, s);
    } else {
      NoShift();
    }
  }
}
