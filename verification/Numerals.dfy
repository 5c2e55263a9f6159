/** Division of 128-bit numbers, and printing and reading them in a base. */
module Numerals {
  import opened Powers
  import opened BitSlices
  import opened UInt128
  import opened Limbs

  const ZERO: UInt128 := UInt128(0, 0)
  const ONE: UInt128 := UInt128(0, 1)

  /** k is the number of binary digits of v. */
  predicate IsWidth(v: nat, k: nat) {
    v < Pow2(k) && (k > 0 ==> Pow2(k - 1) <= v)
  }

  /** The loop of bits over one word. */
  method WordBits(w: Word) returns (k: nat)
    ensures IsWidth(w, k)
  {
    var rest: nat := w;
    k := 0;
    while rest > 0
      invariant rest * Pow2(k) <= w < (rest + 1) * Pow2(k)
      invariant k > 0 ==> Pow2(k - 1) <= w
    {
      HalfFits(rest, k, w);
      rest := rest / 2;
      k := k + 1;
    }
  }

  lemma HalfFits(rest: nat, k: nat, w: nat)
    requires rest > 0 && rest * Pow2(k) <= w < (rest + 1) * Pow2(k)
    ensures (rest / 2) * Pow2(k + 1) <= w < (rest / 2 + 1) * Pow2(k + 1) && Pow2(k) <= w
  {
    var h, b, p := rest / 2, rest % 2, Pow2(k);
    assert rest == 2 * h + b;
    assert rest * p == h * (2 * p) + b * p;
    assert (rest + 1) * p == rest * p + p;
    assert (h + 1) * (2 * p) == h * (2 * p) + 2 * p;
    assert b * p == if b == 1 then p else 0;
    AtLeast(rest, p);
  }

  /** bits. */
  method Bits(x: UInt128) returns (out: nat)
    ensures IsWidth(Value(x), out) && out <= 128
  {
    hide Pow2;
    if x.upper != 0 {
      out := WordBits(x.upper);
      WidthOfBoth(x, out);
      out := 64 + out;
    } else {
      out := WordBits(x.lower);
    }
    WidthBound(Value(x), out);
  }

  lemma WidthOfBoth(x: UInt128, k: nat)
    requires x.upper != 0 && IsWidth(x.upper, k)
    ensures IsWidth(Value(x), 64 + k)
  {
    if k == 0 { NoShift(); }
    SplitPower(64 + k);
    SplitPower(64 + k - 1);
  }

  lemma WidthBound(v: nat, k: nat)
    requires IsWidth(v, k) && v < TWO_128
    ensures k <= 128
  {
    if k > 128 {
      BigPower(k - 1);
    }
  }

  lemma BigPower(k: nat)
    requires k >= 128
    ensures Pow2(k) >= TWO_128
  {
    SplitPower(k);
  }

  /** The quotient and remainder for the bits of the dividend from x up. */
  predicate Partial(v: nat, d: nat, x: nat, q: nat, r: nat) {
    v / Pow2(x) == q * d + r && r < d
  }

  lemma PartialStep(v: nat, d: nat, x: nat, q: nat, r: nat, bit: nat)
    requires x > 0 && Partial(v, d, x, q, r) && v < TWO_128 && bit == (v / Pow2(x - 1)) % 2
    ensures 2 * q + 1 <= TWO_128 && 2 * q < TWO_128 && 2 * r + bit < TWO_128
    ensures if 2 * r + bit >= d then Partial(v, d, x - 1, 2 * q + 1, 2 * r + bit - d)
            else Partial(v, d, x - 1, 2 * q, 2 * r + bit)
    ensures 2 * r + bit >= d ==> 2 * q + 1 < TWO_128
  {
    var p := Pow2(x - 1);
    var a := v / p;
    QuotientBound(v, p);
    HalfQuotient(v, p);
    assert a == 2 * (v / (2 * p)) + bit;
    assert a == (2 * q) * d + (2 * r + bit) by { Twice(q, d); }
    AtLeast(d, 2 * q);
    if 2 * r + bit >= d {
      assert (2 * q + 1) * d == (2 * q) * d + d;
      AtLeast(d, 2 * q + 1);
    }
  }

  lemma Twice(q: nat, d: nat)
    ensures (2 * q) * d == 2 * (q * d)
  {
  }

  lemma HalfQuotient(v: nat, p: nat)
    requires p > 0
    ensures (v / p) / 2 == v / (2 * p)
  {
    var a, r := v / p, v % p;
    var h, b := a / 2, a % 2;
    assert v == p * a + r && a == 2 * h + b;
    assert v == (2 * p) * h + (p * b + r) by { assert p * (2 * h + b) == (2 * p) * h + p * b; }
    assert p * b <= p;
    DivMod(v, p * b + r, h, 2 * p);
  }

  /** divmod; by zero is an error. */
  method Divmod(lhs: UInt128, rhs: UInt128) returns (ok: bool, q: UInt128, r: UInt128)
    ensures ok <==> rhs != ZERO
    ensures ok ==> Value(lhs) == Value(q) * Value(rhs) + Value(r) && Value(r) < Value(rhs)
  {
    ok, q, r := true, ZERO, ZERO;
    SameValue(rhs, ZERO);
    if rhs == ZERO {
      return false, ZERO, ZERO;
    } else if rhs == ONE {
      return true, lhs, ZERO;
    } else if lhs == rhs {
      return true, ONE, ZERO;
    } else if lhs == ZERO || Less(lhs, rhs) {
      OrderIsOrder(lhs, rhs);
      return true, ZERO, lhs;
    }
    hide Pow2, ShiftLeft, ShiftRight, Plus, Minus, Value;
    var x := Bits(lhs);
    PartialStart(lhs, rhs, x);
    while x > 0
      invariant x <= 128 && Partial(Value(lhs), Value(rhs), x, Value(q), Value(r))
    {
      q, r := Bring(lhs, rhs, x, q, r);
      x := x - 1;
    }
    NoShift();
    assert Value(lhs) / 1 == Value(lhs);
  }

  lemma PartialStart(lhs: UInt128, rhs: UInt128, x: nat)
    requires IsWidth(Value(lhs), x) && rhs != ZERO
    ensures Partial(Value(lhs), Value(rhs), x, Value(ZERO), Value(ZERO))
  {
    DivMod(Value(lhs), Value(lhs), 0, Pow2(x));
  }

  /** One round: bring down a bit of the dividend and subtract if the divisor fits. */
  method Bring(lhs: UInt128, rhs: UInt128, x: nat, q: UInt128, r: UInt128) returns (q': UInt128, r': UInt128)
    requires 0 < x <= 128 && Partial(Value(lhs), Value(rhs), x, Value(q), Value(r))
    ensures Partial(Value(lhs), Value(rhs), x - 1, Value(q'), Value(r'))
  {
    hide Pow2, ShiftLeft, ShiftRight, Plus, Minus, Partial, Value;
    ghost var bit := (Value(lhs) / Pow2(x - 1)) % 2;
    PartialStep(Value(lhs), Value(rhs), x, Value(q), Value(r), bit);
    Doubled(q);
    q' := ShiftLeft(q, ONE);
    Doubled(r);
    r' := ShiftLeft(r, ONE);
    BitAt(lhs, x - 1);
    if ShiftRight(lhs, UInt128(0, x - 1)).lower % 2 == 1 {
      PlusOne(r');
      r' := Plus(r', ONE);
    }
    OrderIsOrder(rhs, r');
    if !Greater(rhs, r') {
      MinusLess(r', rhs);
      PlusOne(q');
      r' := Minus(r', rhs);
      q' := Plus(q', ONE);
    }
  }

  lemma Doubled(x: UInt128)
    requires 2 * Value(x) < TWO_128
    ensures Value(ShiftLeft(x, ONE)) == 2 * Value(x)
  {
    hide ShiftLeft;
    ShiftLeftIs(x, ONE);
    assert Pow2(1) == 2 * Pow2(0);
  }

  lemma PlusOne(x: UInt128)
    requires Value(x) + 1 < TWO_128
    ensures Value(Plus(x, ONE)) == Value(x) + 1
  {
    hide Plus;
    PlusIsSum(x, ONE);
  }

  lemma MinusLess(x: UInt128, y: UInt128)
    requires Value(y) <= Value(x)
    ensures Value(Minus(x, y)) == Value(x) - Value(y)
  {
    hide Minus;
    MinusIsDifference(x, y);
  }

  lemma BitAt(x: UInt128, s: nat)
    requires s < 128
    ensures ShiftRight(x, UInt128(0, s)).lower % 2 == (Value(x) / Pow2(s)) % 2
  {
    hide ShiftRight, Pow2;
    ShiftRightIs(x, UInt128(0, s));
    LowBit(ShiftRight(x, UInt128(0, s)));
  }

  lemma LowBit(x: UInt128)
    ensures x.lower % 2 == Value(x) % 2
  {
  }

  const DIGITS := "0123456789abcdef"

  /** The numeral of v. */
  function Numeral(v: nat, base: nat): (s: string)
    requires 2 <= base <= 16
    ensures |s| > 0
    decreases v
  {
    if v < base then [DIGITS[v]]
    else
      QuotientSmaller(v, base);
      Numeral(v / base, base) + [DIGITS[v % base]]
  }

  /** Zeros in front, up to a length. */
  function Padded(s: string, len: nat): (r: string)
    ensures |r| == if |s| < len then len else |s|
    ensures r[|r| - |s|..] == s && forall i :: 0 <= i < |r| - |s| ==> r[i] == '0'
  {
    if |s| < len then seq(len - |s|, _ => '0') + s else s
  }

  /** The digits that are still to come: none for zero. */
  function Front(v: nat, base: nat): string
    requires 2 <= base <= 16
  {
    if v == 0 then "" else Numeral(v, base)
  }

  /** Splits off the last digit. */
  method LastDigit(x: UInt128, base: nat) returns (rest: UInt128, digit: char)
    requires 2 <= base <= 16 && x != ZERO
    ensures Value(rest) < Value(x)
    ensures Front(Value(x), base) == Front(Value(rest), base) + [digit]
  {
    hide Value, Numeral;
    SameValue(x, ZERO);
    SmallValues(base);
    var done, r;
    done, rest, r := Divmod(x, UInt128(0, base));
    NextDigit(Value(x), base, Value(rest), Value(r));
    LowDigit(r);
    digit := DIGITS[r.lower % 256];
  }

  /** The digits of a number other than zero, from the last to the first. */
  method Print(x: UInt128, base: nat) returns (out: string)
    requires 2 <= base <= 16 && x != ZERO
    ensures out == Front(Value(x), base)
  {
    hide Value, Numeral, Front;
    var q, digit := LastDigit(x, base);
    out := [digit];
    while q != ZERO
      invariant Front(Value(x), base) == Front(Value(q), base) + out
      decreases Value(q)
    {
      ghost var v := Front(Value(q), base);
      q, digit := LastDigit(q, base);
      assert v + out == Front(Value(q), base) + ([digit] + out);
      out := [digit] + out;
    }
    FrontIs(0, base);
  }

  /** str. */
  method Str(x: UInt128, base: nat, len: nat) returns (ok: bool, out: string)
    ensures ok <==> 2 <= base <= 16
    ensures ok ==> out == Padded(Numeral(Value(x), base), len)
  {
    if base < 2 || base > 16 {
      return false, "";
    }
    hide Value, Numeral, Front;
    SameValue(x, ZERO);
    FrontIs(Value(x), base);
    if x == ZERO {
      out := "0";
    } else {
      out := Print(x, base);
    }
    ok := true;
    if |out| < len {
      out := seq(len - |out|, _ => '0') + out;
    }
  }

  lemma FrontIs(v: nat, base: nat)
    requires 2 <= base <= 16
    ensures Value(ZERO) == 0 && Front(0, base) == "" && Numeral(0, base) == "0"
    ensures v > 0 ==> Front(v, base) == Numeral(v, base)
  {
  }

  lemma SmallValues(base: nat)
    requires base <= 16
    ensures Value(UInt128(0, base)) == base && Value(ZERO) == 0
  {
  }

  /** A small number has its value in the low byte. */
  lemma LowDigit(r: UInt128)
    requires Value(r) < 16
    ensures r.lower % 256 == Value(r)
  {
  }

  lemma NextDigit(v: nat, base: nat, q: nat, r: nat)
    requires 2 <= base <= 16 && v > 0 && v == q * base + r && r < base
    ensures q == v / base && r == v % base && q < v
    ensures Numeral(v, base) == (if q == 0 then "" else Numeral(q, base)) + [DIGITS[r]]
  {
    DivMod(v, r, q, base);
    QuotientSmaller(v, base);
    hide *;
    assert Numeral(v, base) == (if v < base then [DIGITS[v]] else Numeral(v / base, base) + [DIGITS[v % base]]) by {
      NumeralUnfold(v, base);
    }
    if q == 0 {
      assert v == r;
    } else {
      TimesOne(q, base);
    }
  }

  lemma TimesOne(q: nat, base: nat)
    requires q > 0
    ensures q * base >= base
  {
  }

  lemma NumeralUnfold(v: nat, base: nat)
    requires 2 <= base <= 16
    ensures Numeral(v, base) == if v < base then [DIGITS[v]] else Numeral(v / base, base) + [DIGITS[v % base]]
  {
  }

  predicate IsSpace(c: char) {
    c == ' ' || '\t' <= c <= '\r'
  }

  /** Space, tab, line feed, vertical tab, form feed and carriage return. */
  lemma SpaceIs(c: char)
    ensures IsSpace(c) <==> c as int in {32, 9, 10, 11, 12, 13}
  {
  }

  predicate IsDigit(c: char, base: nat)
    requires base <= 10
  {
    '0' <= c && (c as int) < '0' as int + base
  }

  /** The number that a row of digits stands for. */
  function Number(s: string, base: nat): nat
    requires base <= 10 && forall i :: 0 <= i < |s| ==> IsDigit(s[i], base)
  {
    if s == [] then 0
    else
      var last := |s| - 1;
      Number(s[..last], base) * base + DigitValue(s[last])
  }

  function DigitValue(c: char): nat {
    if '0' <= c then c as int - '0' as int else 0
  }

  /** The digits that a text starts with. */
  function Leading(s: string, base: nat): (digits: string)
    requires base <= 10
    ensures forall i :: 0 <= i < |digits| ==> IsDigit(digits[i], base)
  {
    if s == [] || !IsDigit(s[0], base) then [] else [s[0]] + Leading(s[1..], base)
  }

  /** The most characters that are read in a base. */
  function MaxLen(base: nat): nat {
    if base == 10 then 39 else 43
  }

  function LastChars(s: string, n: nat): (r: string)
    ensures |r| == if |s| < n then |s| else n
    ensures r == s[|s| - |r|..]
  {
    if |s| > n then s[|s| - n..] else s
  }

  function Trimmed(s: string): string {
    if s != [] && IsSpace(s[0]) then Trimmed(s[1..]) else s
  }

  lemma {:induction false} LeadingPrefix(s: string, base: nat, i: nat)
    requires base <= 10 && i <= |s| && forall k :: 0 <= k < i ==> IsDigit(s[k], base)
    requires i < |s| ==> !IsDigit(s[i], base)
    ensures Leading(s, base) == s[..i]
    decreases i
  {
    if i > 0 { LeadingPrefix(s[1..], base, i - 1); }
  }

  lemma NumberPush(s: string, i: nat, base: nat)
    requires base <= 10 && i < |s| && forall k :: 0 <= k <= i ==> IsDigit(s[k], base)
    ensures Number(s[..i + 1], base) == Number(s[..i], base) * base + DigitValue(s[i])
  {
    assert s[..i + 1][..i] == s[..i];
  }

  lemma NumberStart(base: nat)
    requires base <= 10
    ensures Value(ZERO) == 0 && Number("", base) == 0
  {
  }

  /** One more digit. */
  method ReadOne(x: UInt128, base: nat, c: char, ghost number: nat) returns (y: UInt128)
    requires 0 < base <= 10 && IsDigit(c, base) && Value(x) == number % TWO_128
    ensures Value(y) == (number * base + DigitValue(c)) % TWO_128
  {
    hide Value, Plus;
    var digit := DigitValue(c);
    SmallWord(base);
    SmallWord(digit);
    y := Multiply(x, UInt128(0, base));
    PlusIsSum(y, UInt128(0, digit));
    ReadDigit(number, base, digit, Value(x), Value(y));
    y := Plus(y, UInt128(0, digit));
  }

  /** _init_dec and _init_oct: the last characters, as far as they are digits. */
  method InitDigits(str: string, base: nat) returns (x: UInt128)
    requires base == 10 || base == 8
    ensures Value(x) == Number(Leading(LastChars(str, MaxLen(base)), base), base) % TWO_128
  {
    hide Value, Number, Leading;
    x := ZERO;
    NumberStart(base);
    var maxlen := if |str| < MaxLen(base) then |str| else MaxLen(base);
    var s := if |str| > MaxLen(base) then str[|str| - MaxLen(base)..] else str;
    var i := 0;
    while i < |s| && IsDigit(s[i], base) && i < maxlen
      invariant 0 <= i <= |s| && forall k :: 0 <= k < i ==> IsDigit(s[k], base)
      invariant Value(x) == Number(s[..i], base) % TWO_128
    {
      NumberPush(s, i, base);
      x := ReadOne(x, base, s[i], Number(s[..i], base));
      i := i + 1;
    }
    LeadingPrefix(s, base, i);
  }

  lemma SmallWord(x: nat)
    requires x < 256
    ensures Value(UInt128(0, x)) == x
  {
  }

  lemma ReadDigit(number: nat, base: nat, digit: nat, before: nat, product: nat)
    requires before == number % TWO_128 && product == (before * base) % TWO_128
    ensures (product + digit) % TWO_128 == (number * base + digit) % TWO_128
  {
    ModProduct(number, base, TWO_128);
    ModSum(digit, before * base, TWO_128);
    ModSum(digit, number * base, TWO_128);
  }

  /** init, for the two bases that count down digits; the characters are those of a C string. */
  method Init(str: string, base: nat) returns (x: UInt128)
    requires base == 10 || base == 8
    ensures Value(x) == Number(Leading(LastChars(Trimmed(str), MaxLen(base)), base), base) % TWO_128
  {
    hide Value, Number, Leading;
    var s := str;
    while |s| > 0 && IsSpace(s[0])
      invariant Trimmed(s) == Trimmed(str)
      decreases |s|
    {
      s := s[1..];
    }
    x := InitDigits(s, base);
  }

  function Power(base: nat, k: nat): nat {
    if k == 0 then 1 else base * Power(base, k - 1)
  }

  lemma {:induction false} NumeralLength(v: nat, base: nat, k: nat)
    requires 2 <= base <= 10 && k > 0 && v < Power(base, k)
    ensures |Numeral(v, base)| <= k
    decreases k
  {
    if v >= base {
      QuotientBelow(v, base, Power(base, k - 1));
      if k > 1 {
        NumeralLength(v / base, base, k - 1);
      }
    }
  }

  lemma QuotientBelow(v: nat, b: nat, p: nat)
    requires b > 0 && v < b * p
    ensures v / b < p
  {
    var q, r := v / b, v % b;
    assert v == b * q + r;
  }

  /** A numeral is digits, and the digits give the number back. */
  lemma {:induction false} NumeralNumber(v: nat, base: nat)
    requires 2 <= base <= 10
    ensures forall i :: 0 <= i < |Numeral(v, base)| ==> IsDigit(Numeral(v, base)[i], base)
    ensures Number(Numeral(v, base), base) == v
    decreases v
  {
    DigitChars(v % base);
    if v < base {
      DigitChars(v);
      assert Numeral(v, base)[..0] == [];
    } else {
      QuotientSmaller(v, base);
      var q, r := v / base, v % base;
      NumeralNumber(q, base);
      NumeralStep(v, base, q, r);
    }
  }

  lemma NumeralStep(v: nat, base: nat, q: nat, r: nat)
    requires 2 <= base <= 10 && v >= base && q == v / base && r == v % base && q * base + r == v
    requires forall i :: 0 <= i < |Numeral(q, base)| ==> IsDigit(Numeral(q, base)[i], base)
    requires Number(Numeral(q, base), base) == q && IsDigit(DIGITS[r], base) && DigitValue(DIGITS[r]) == r
    ensures forall i :: 0 <= i < |Numeral(v, base)| ==> IsDigit(Numeral(v, base)[i], base)
    ensures Number(Numeral(v, base), base) == v
  {
    var s := Numeral(v, base);
    assert s == Numeral(q, base) + [DIGITS[r]];
    hide Numeral;
    NumberPush(s, |s| - 1, base);
    assert s[..|s| - 1] == Numeral(q, base) && s[..|s|] == s;
  }

  lemma QuotientSmaller(v: nat, b: nat)
    requires b >= 2 && v > 0
    ensures v / b < v && (v / b) * b + v % b == v
  {
  }

  lemma DigitChars(d: nat)
    requires d < 10
    ensures DIGITS[d] as int == '0' as int + d
  {
  }

  lemma {:induction false} ZerosNumber(n: nat, s: string, base: nat)
    requires 0 < base <= 10 && forall i :: 0 <= i < |s| ==> IsDigit(s[i], base)
    ensures Number(seq(n, _ => '0') + s, base) == Number(s, base)
    decreases n + |s|
  {
    var zeros := seq(n, _ => '0');
    if s != [] {
      assert (zeros + s)[..n + |s| - 1] == zeros + s[..|s| - 1];
      ZerosNumber(n, s[..|s| - 1], base);
    } else if n > 0 {
      assert zeros + s == zeros && zeros[..n - 1] == seq(n - 1, _ => '0') + s;
      ZerosNumber(n - 1, s, base);
    }
  }

  lemma AllLeading(s: string, base: nat)
    requires base <= 10 && forall i :: 0 <= i < |s| ==> IsDigit(s[i], base)
    ensures Leading(s, base) == s
  {
    LeadingPrefix(s, base, |s|);
  }

  lemma FitsMaxLen(v: nat, base: nat)
    requires v < TWO_128 && (base == 10 || base == 8)
    ensures |Numeral(v, base)| <= MaxLen(base)
  {
    PowerSizes();
    NumeralLength(v, base, MaxLen(base));
  }

  /** The largest number has exactly as many digits as are read. */
  lemma LargestFits(base: nat)
    requires base == 10 || base == 8
    ensures |Numeral(TWO_128 - 1, base)| == MaxLen(base)
  {
    FitsMaxLen(TWO_128 - 1, base);
    PowersBelow();
    NumeralLonger(TWO_128 - 1, base, MaxLen(base) - 1);
  }

  lemma {:induction false} NumeralLonger(v: nat, base: nat, k: nat)
    requires 2 <= base <= 10 && Power(base, k) <= v
    ensures |Numeral(v, base)| > k
    decreases k
  {
    if k > 0 {
      PowerPositive(base, k - 1);
      TimesMonotone(base, 1, Power(base, k - 1));
      QuotientAtLeast(v, base, Power(base, k - 1));
      QuotientSmaller(v, base);
      NumeralLonger(v / base, base, k - 1);
    }
  }

  lemma {:induction false} PowerPositive(base: nat, k: nat)
    requires base > 0
    ensures Power(base, k) > 0
  {
    if k > 0 { PowerPositive(base, k - 1); }
  }

  lemma QuotientAtLeast(v: nat, b: nat, p: nat)
    requires b > 0 && b * p <= v
    ensures p <= v / b
  {
    var q, r := v / b, v % b;
    assert v == b * q + r;
    if q < p {
      TimesMonotone(b, q + 1, p);
      assert false;
    }
  }

  lemma TimesMonotone(b: nat, x: nat, y: nat)
    requires x <= y
    ensures b * x <= b * y
  {
  }

  lemma PowersBelow()
    ensures Power(10, 38) < TWO_128 && Power(8, 42) < TWO_128
  {
    assert Power(10, 4) == 10000 && Power(10, 5) == 100000;
    assert Power(8, 2) == 64 && Power(8, 5) == 32768;
    hide Power;
    PowerAdd(10, 4, 4);
    PowerAdd(10, 5, 5);
    PowerAdd(10, 10, 10);
    PowerAdd(10, 20, 10);
    PowerAdd(10, 30, 8);
    PowerAdd(8, 5, 5);
    PowerAdd(8, 10, 10);
    PowerAdd(8, 20, 20);
    PowerAdd(8, 40, 2);
  }

  /** What a digit stands for, in bases up to 16. */
  function HexValue(c: char): int {
    if '0' <= c <= '9' then c as int - '0' as int
    else if 'a' <= c <= 'f' then c as int - 'a' as int + 10
    else -1
  }

  /** The number that digits in bases up to 16 stand for. */
  function HexNumber(s: string, base: nat): int {
    if s == [] then 0 else HexNumber(s[..|s| - 1], base) * base + HexValue(s[|s| - 1])
  }

  /** In every base, a numeral stands for its number, has only digits of the base, and no zero in front. */
  lemma {:induction false} NumeralMeans(v: nat, base: nat)
    requires 2 <= base <= 16
    ensures HexNumber(Numeral(v, base), base) == v
    ensures forall i :: 0 <= i < |Numeral(v, base)| ==> 0 <= HexValue(Numeral(v, base)[i]) < base
    ensures v > 0 ==> HexValue(Numeral(v, base)[0]) > 0
    decreases v
  {
    NumeralUnfold(v, base);
    HexDigits();
    if v < base {
      assert Numeral(v, base)[..0] == [];
    } else {
      QuotientSmaller(v, base);
      NumeralMeans(v / base, base);
      NumeralPush(Numeral(v / base, base), DIGITS[v % base], base);
    }
  }

  lemma HexDigits()
    ensures forall d :: 0 <= d < 16 ==> HexValue(DIGITS[d]) == d
  {
  }

  lemma NumeralPush(s: string, digit: char, base: nat)
    ensures HexNumber(s + [digit], base) == HexNumber(s, base) * base + HexValue(digit)
  {
    assert (s + [digit])[..|s|] == s;
  }

  lemma PowerSizes()
    ensures TWO_128 <= Power(10, 39) && TWO_128 <= Power(8, 43)
  {
    assert Power(10, 4) == 10000 && Power(10, 5) == 100000;
    assert Power(8, 3) == 512 && Power(8, 5) == 32768;
    hide Power;
    PowerAdd(10, 5, 5);
    PowerAdd(10, 10, 10);
    PowerAdd(10, 20, 10);
    PowerAdd(10, 30, 5);
    PowerAdd(10, 35, 4);
    PowerAdd(8, 5, 5);
    PowerAdd(8, 10, 10);
    PowerAdd(8, 20, 20);
    PowerAdd(8, 40, 3);
  }

  lemma {:induction false} PowerAdd(base: nat, a: nat, b: nat)
    ensures Power(base, a + b) == Power(base, a) * Power(base, b)
  {
    if a > 0 {
      PowerAdd(base, a - 1, b);
      Associate(base, Power(base, a - 1), Power(base, b));
    }
  }

  /** Reading what was printed, with or without leading zeros, gives the number back. */
  lemma PrintedIsRead(v: nat, base: nat, len: nat)
    requires v < TWO_128 && (base == 10 || base == 8)
    ensures Number(Leading(LastChars(Trimmed(Padded(Numeral(v, base), len)), MaxLen(base)), base), base) == v
  {
    hide Numeral, LastChars, Trimmed, Padded, Leading, Number;
    FitsMaxLen(v, base);
    NumeralNumber(v, base);
    var n := PaddedTail(Numeral(v, base), base, len, MaxLen(base));
    ZerosNumber(n, Numeral(v, base), base);
    AllLeading(seq(n, _ => '0') + Numeral(v, base), base);
  }

  /** What the reader keeps of a padded numeral: the numeral, and some of the zeros. */
  lemma PaddedTail(numeral: string, base: nat, len: nat, max: nat) returns (n: nat)
    requires base <= 10 && 0 < |numeral| <= max && forall i :: 0 <= i < |numeral| ==> IsDigit(numeral[i], base)
    ensures LastChars(Trimmed(Padded(numeral, len)), max) == seq(n, _ => '0') + numeral
  {
    var text := Padded(numeral, len);
    assert Trimmed(text) == text;
    var tail := LastChars(text, max);
    n := |tail| - |numeral|;
    assert tail == seq(n, _ => '0') + numeral;
  }

  /** The round trip. */
  method PrintAndRead(x: UInt128, base: nat, len: nat) returns (y: UInt128)
    requires base == 10 || base == 8
    ensures y == x
  {
    var ok, text := Str(x, base, len);
    y := Init(text, base);
    PrintedIsRead(Value(x), base, len);
    SmallMod(Value(x), TWO_128);
    SameValue(x, y);
  }
}
