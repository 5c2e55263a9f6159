/** Bitwise conjunction of natural numbers, prefix masks, and the test for powers of two. */
module BitMasks {
  import opened Powers
  import opened BitSlices

  /** x & y. */
  function BitAnd(x: nat, y: nat): nat {
    if x == 0 || y == 0 then 0 else (x % 2) * (y % 2) + 2 * BitAnd(x / 2, y / 2)
  }

  /** How many bits of the value are set. */
  function Ones(value: nat): nat {
    if value == 0 then 0 else value % 2 + Ones(value / 2)
  }

  /** bit_count. */
  method BitCount(value: nat) returns (count: nat)
    ensures count == Ones(value)
  {
    count := 0;
    var rest := value;
    while rest != 0
      invariant count + Ones(rest) == Ones(value)
      decreases rest
    {
      if rest % 2 == 1 {
        count := count + 1;
      }
      rest := rest / 2;
    }
  }

  lemma {:induction false} OnesOfMask(k: nat)
    ensures Ones(Pow2(k) - 1) == k
  {
    if k > 0 { OnesOfMask(k - 1); }
  }

  /** d + 1 is the power of two with exponent k. */
  predicate IsSize(d: nat, k: nat) {
    d + 1 == Pow2(k)
  }

  ghost predicate PowerSized(d: nat) {
    exists k :: IsSize(d, k)
  }

  /** is_power_of_2, for diff = ubound - lbound; max is the largest value of the type. */
  predicate PowerOfTwoTest(diff: nat, max: nat) {
    diff == 0 || diff == max || BitAnd(diff + 1, diff) == 0
  }

  lemma {:induction false} NoCommonBits(d: nat)
    ensures BitAnd(d + 1, d) == 0 <==> PowerSized(d)
  {
    if d == 0 {
      assert IsSize(0, 0);
    } else if d % 2 == 0 {
      EvenDiffers(d);
    } else {
      NoCommonBits(d / 2);
      assert (d + 1) / 2 == d / 2 + 1;
      if PowerSized(d / 2) {
        var k: nat :| IsSize(d / 2, k);
        assert IsSize(d, k + 1);
      }
      if PowerSized(d) {
        var k: nat :| IsSize(d, k);
        assert k > 0 && IsSize(d / 2, k - 1);
      }
    }
  }

  /** An even number and its successor agree above the last bit. */
  lemma {:induction false} EvenDiffers(d: nat)
    requires d > 0 && d % 2 == 0
    ensures BitAnd(d + 1, d) > 0
  {
    assert (d + 1) / 2 == d / 2;
    AndSelf(d / 2);
  }

  lemma {:induction false} AndSelf(x: nat)
    ensures BitAnd(x, x) == x
  {
    if x > 0 {
      AndSelf(x / 2);
      assert (x % 2) * (x % 2) == x % 2;
    }
  }

  /** The test is right for every range of a type with b bits. */
  lemma PowerOfTwoTestIs(diff: nat, b: nat)
    requires diff < Pow2(b)
    ensures PowerOfTwoTest(diff, Pow2(b) - 1) <==> PowerSized(diff)
  {
    NoCommonBits(diff);
    if diff == 0 { assert IsSize(0, 0); }
    if diff == Pow2(b) - 1 { assert IsSize(diff, b); }
  }

  lemma {:induction false} PowersOrdered(a: nat, b: nat)
    requires Pow2(a) <= Pow2(b)
    ensures a <= b
  {
    if a > b {
      Pow2Monotone(b + 1, a);
    }
  }

  /** Masking with the high bits clears the low k bits. */
  lemma {:induction false} MaskClears(x: nat, b: nat, k: nat)
    requires k <= b && x < Pow2(b)
    ensures Pow2(k) <= Pow2(b)
    ensures BitAnd(x, Pow2(b) - Pow2(k)) == x - Mod(x, Pow2(k))
    decreases b
  {
    hide Pow2, BitAnd, Mod;
    Pow2Monotone(k, b);
    if k == 0 {
      NothingCleared(x);
      MaskAll(x, b);
    } else if b > k {
      var p, q := Pow2(k - 1), Pow2(b - 1);
      Pow2Next(k - 1);
      Pow2Next(b - 1);
      MaskClears(x / 2, b - 1, k - 1);
      MaskShift(x, q - p);
      MaskSum(x, p, BitAnd(x / 2, q - p));
    } else {
      NothingMasked(x, Pow2(b));
    }
  }

  lemma NothingCleared(x: nat)
    ensures Pow2(0) == 1 && Mod(x, 1) == 0
  {
  }

  lemma NothingMasked(x: nat, p: nat)
    requires x < p
    ensures BitAnd(x, 0) == 0 && Mod(x, p) == x
  {
  }

  lemma MaskSum(x: nat, p: nat, half: nat)
    requires p > 0 && half == x / 2 - Mod(x / 2, p)
    ensures 2 * half == x - Mod(x, 2 * p)
  {
    ModDouble(x, p);
  }

  lemma MaskShift(x: nat, half: nat)
    ensures BitAnd(x, 2 * half) == 2 * BitAnd(x / 2, half)
  {
    if x > 0 && half > 0 {
      assert (2 * half) / 2 == half && (2 * half) % 2 == 0;
    }
  }

  lemma {:induction false} MaskAll(x: nat, b: nat)
    requires x < Pow2(b)
    ensures BitAnd(x, Pow2(b) - 1) == x
  {
    if x > 0 {
      MaskAll(x / 2, b - 1);
      assert (Pow2(b) - 1) % 2 == 1 && (Pow2(b) - 1) / 2 == Pow2(b - 1) - 1;
    }
  }
}
