/** Division by a constant with one shift register: the remainder register takes the bits of the
    dividend from the top of the result register, which takes the quotient bits at its bottom. */
module FixedDivision {
  import opened Powers
  import opened BitSlices

  datatype Registers = Registers(rem: nat, res: nat)

  /** One step on n-bit registers, 2 * p being 2^n. */
  function Step(p: nat, d: nat, x: Registers): Registers
    requires p > 0
  {
    var smaller := d <= x.rem;
    var rest := if smaller then x.rem - d else x.rem;
    Registers(2 * (rest % p) + x.res / p, 2 * (x.res % p) + if smaller then 1 else 0)
  }

  function Run(p: nat, d: nat, x: Registers, steps: nat): Registers
    requires p > 0
    decreases steps
  {
    if steps == 0 then x else Run(p, d, Step(p, d, x), steps - 1)
  }

  /** Before the last steps: high is the part of the dividend that was seen, low what is still to come;
      m and w are the weights of the two parts of the result register, m * w being 2 * p. */
  predicate Underway(p: nat, d: nat, m: nat, w: nat, high: nat, low: nat, q: nat, x: Registers) {
    && Times(m, w) == 2 * p && low < m && high < w && 2 * q < w
    && x.res == Times(low, w) + q
    && x.rem + 2 * Times(d, q) == high
    && (d > 0 ==> x.rem < 2 * d)
    && (d == 0 ==> 2 * q == w - 2)
  }

  /** The dividend has bits left: one more moves over. */
  lemma MoveBit(p: nat, d: nat, m: nat, w: nat, high: nat, low: nat, q: nat, x: Registers)
    requires p > 0 && w > 0 && w % 2 == 0 && m > 0 && Underway(p, d, 2 * m, w, high, low, q, x)
    ensures var smaller := d <= x.rem;
      Underway(p, d, m, 2 * w, 2 * high + low / m, low % m, 2 * q + (if smaller then 1 else 0), Step(p, d, x))
  {
    hide Times;
    Half(m, w);
    TopBlock(m, w, low, q);
    Double(low % m, w);
    Double(m, w);
    Subtracted(p, d, q, x.rem, high, w, m);
  }

  lemma Half(m: nat, w: nat)
    ensures Times(2 * m, w) == 2 * Times(m, w)
  {
  }

  lemma Double(a: nat, w: nat)
    ensures Times(a, 2 * w) == 2 * Times(a, w)
  {
  }

  /** The top bit of the result register is the top bit of what is still to come. */
  lemma TopBlock(m: nat, w: nat, low: nat, q: nat)
    requires m > 0 && low < 2 * m && q < w
    ensures Times(m, w) > 0 && low / m < 2
    ensures (Times(low, w) + q) / Times(m, w) == low / m
    ensures (Times(low, w) + q) % Times(m, w) == Times(low % m, w) + q
  {
    var top, rest := low / m, low % m;
    assert low == rest + m * top;
    Blocks(m, w, rest, q);
    Shape(m, w, top, rest, q, low);
    DivMod(low * w + q, rest * w + q, top, m * w);
  }

  lemma Blocks(m: nat, w: nat, rest: nat, q: nat)
    requires rest < m && q < w
    ensures rest * w + q < m * w
  {
    assert (rest + 1) * w <= m * w;
    assert (rest + 1) * w == rest * w + w;
  }

  lemma Shape(m: nat, w: nat, top: nat, rest: nat, q: nat, low: nat)
    requires low == rest + m * top
    ensures low * w + q == (rest * w + q) + (m * w) * top
  {
    assert low * w == rest * w + (m * top) * w;
    assert (m * top) * w == (m * w) * top;
  }

  /** What is left after the subtraction fits below p. */
  lemma Subtracted(p: nat, d: nat, q: nat, rem: nat, high: nat, w: nat, m: nat)
    requires rem + 2 * Times(d, q) == high < w && Times(m, w) == p && m > 0
    ensures var s: nat, rest := if d <= rem then 1 else 0, if d <= rem then rem - d else rem;
      rest % p == rest && 2 * rest + 2 * Times(d, 2 * q + s) == 2 * high
  {
    var s: nat, rest := if d <= rem then 1 else 0, if d <= rem then rem - d else rem;
    assert w <= m * w;
    SmallMod(rest, p);
    assert d * (2 * q + s) == 2 * (d * q) + d * s;
    assert d * s == if s == 1 then d else 0;
  }

  /** What the division by d leaves in n bits; d is the constant reduced to n bits. */
  function FixedQuotient(n: nat, d: nat, e: nat): nat {
    if d == 0 then Pow2(n) - 1 else e / d
  }

  function FixedRemainder(n: nat, d: nat, e: nat): nat
    requires n > 0
  {
    (if d == 0 then e else e % d) % Pow2(n - 1)
  }

  lemma LastStep(p: nat, d: nat, high: nat, q: nat, x: Registers, n: nat)
    requires n > 0 && p == Pow2(n - 1) && Underway(p, d, 1, 2 * p, high, 0, q, x)
    ensures Step(p, d, x) == Registers(2 * FixedRemainder(n, d, high), FixedQuotient(n, d, high))
  {
    var s: nat, rest := if d <= x.rem then 1 else 0, if d <= x.rem then x.rem - d else x.rem;
    assert x.res == q && q < p;
    SmallMod(q, p);
    DivMod(q, q, 0, p);
    if d > 0 {
      assert d * (2 * q + s) == 2 * (d * q) + d * s;
      assert d * s == if s == 1 then d else 0;
      DivMod(high, rest, 2 * q + s, d);
    } else {
      assert Times(d, q) == 0;
    }
  }

  /** From any point on, the remaining steps finish the division. */
  lemma {:induction false} RunFinishes(n: nat, d: nat, w: nat, high: nat, low: nat, q: nat, x: Registers, steps: nat)
    requires n > 0 && steps > 0 && w > 0 && w % 2 == 0
    requires Underway(Pow2(n - 1), d, Pow2(steps - 1), w, high, low, q, x)
    ensures var e := Times(high, Pow2(steps - 1)) + low;
      Run(Pow2(n - 1), d, x, steps) == Registers(2 * FixedRemainder(n, d, e), FixedQuotient(n, d, e))
    decreases steps
  {
    hide Pow2, Underway, Step, Run, FixedRemainder, FixedQuotient;
    RunUnfold(Pow2(n - 1), d, x, steps);
    if steps == 1 {
      RunLast(n, d, w, high, low, q, x);
    } else {
      var m := Pow2(steps - 2);
      Pow2Next(steps - 2);
      MoveBit(Pow2(n - 1), d, m, w, high, low, q, x);
      var s: nat := if d <= x.rem then 1 else 0;
      RunFinishes(n, d, 2 * w, 2 * high + low / m, low % m, 2 * q + s, Step(Pow2(n - 1), d, x), steps - 1);
      Refill(high, low, m);
    }
  }

  lemma RunUnfold(p: nat, d: nat, x: Registers, steps: nat)
    requires p > 0 && steps > 0
    ensures Run(p, d, x, steps) == Run(p, d, Step(p, d, x), steps - 1)
    ensures Run(p, d, Step(p, d, x), 0) == Step(p, d, x)
  {
  }

  lemma RunLast(n: nat, d: nat, w: nat, high: nat, low: nat, q: nat, x: Registers)
    requires n > 0 && Underway(Pow2(n - 1), d, Pow2(0), w, high, low, q, x)
    ensures var e := Times(high, Pow2(0)) + low;
      Step(Pow2(n - 1), d, x) == Registers(2 * FixedRemainder(n, d, e), FixedQuotient(n, d, e))
  {
    Units(w, high);
    assert Pow2(0) == 1;
    hide Step, FixedRemainder, FixedQuotient;
    LastStep(Pow2(n - 1), d, high, q, x, n);
  }

  lemma Units(w: nat, high: nat)
    ensures Times(1, w) == w && Times(high, 1) == high && Times(0, w) == 0
  {
  }

  lemma Refill(high: nat, low: nat, m: nat)
    requires m > 0
    ensures Times(2 * high + low / m, m) + low % m == Times(high, 2 * m) + low
  {
    var top := low / m;
    assert low == low % m + m * top;
    assert (2 * high + top) * m == high * (2 * m) + top * m;
  }

  /** All n steps, from the registers that divfixed sets up. */
  lemma RunDivides(n: nat, d: nat, e: nat)
    requires n > 0 && e < Pow2(n)
    ensures var p := Pow2(n - 1);
      Run(p, d, Registers(e / p, 2 * (e % p)), n) == Registers(2 * FixedRemainder(n, d, e), FixedQuotient(n, d, e))
  {
    var p := Pow2(n - 1);
    var high, low := e / p, e % p;
    Pow2Next(n - 1);
    hide Pow2, Run, FixedRemainder, FixedQuotient, Underway;
    Start(p, d, e);
    RunFinishes(n, d, 2, high, low, 0, Registers(high, 2 * low), n);
  }

  lemma Start(p: nat, d: nat, e: nat)
    requires p > 0 && e < 2 * p
    ensures Underway(p, d, p, 2, e / p, e % p, 0, Registers(e / p, 2 * (e % p)))
    ensures Times(e / p, p) + e % p == e
  {
    assert e / p < 2;
    assert Times(d, 0) == 0;
  }

  /** divfixed returns the true quotient and remainder of every dividend exactly when the constant is
      at most half of the range. */
  lemma FixedExact(n: nat, c: nat)
    requires n > 0 && c > 0
    ensures c <= Pow2(n - 1) <==> (forall e: nat :: e < Pow2(n) ==>
      FixedQuotient(n, c % Pow2(n), e) == e / c && FixedRemainder(n, c % Pow2(n), e) == e % c)
  {
    var p := Pow2(n - 1);
    Pow2Next(n - 1);
    hide Pow2;
    if c <= p {
      SmallMod(c, 2 * p);
      forall e: nat ensures (e % c) % p == e % c {
        SmallMod(e % c, p);
      }
    } else if c < 2 * p {
      SmallMod(c, 2 * p);
      SmallMod(p, c);
      assert FixedRemainder(n, c % Pow2(n), p) == 0 != p % c;
    } else {
      Overflowing(n, c);
    }
  }

  /** A constant that does not fit is reduced, and dividing by it gives a quotient that is not zero. */
  lemma Overflowing(n: nat, c: nat)
    requires n > 0 && c >= Pow2(n)
    ensures exists e: nat :: e < Pow2(n) && FixedQuotient(n, c % Pow2(n), e) != e / c
  {
    var d := c % Pow2(n);
    Pow2Next(n - 1);
    if d == 0 {
      assert FixedQuotient(n, d, 0) != 0 / c;
    } else {
      SmallMod(d, c);
      DivMod(d, d, 0, c);
      assert FixedQuotient(n, d, d) == 1 != d / c;
    }
  }
}
