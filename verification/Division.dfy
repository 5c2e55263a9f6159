/** The integer arithmetic behind multiplication by a constant and the two restoring divisions. */
module Division {
  import opened Table
  import opened Powers
  import opened BitVectors
  import opened BitSlices

  /** Multiplication by a constant, modulo 2^n. */
  ghost predicate IsScaled(t: seq<Node>, e: Bvec, c: nat, res: Bvec)
    requires WellFormed(t)
  {
    && InTable(t, e) && InTable(t, res) && |res| == |e|
    && forall env :: Val(t, res, env) == Mod(Val(t, e, env) * c, Pow2(|e|))
  }

  lemma ExtendScaled(t: seq<Node>, t': seq<Node>, e: Bvec, c: nat, res: Bvec)
    requires WellFormed(t) && WellFormed(t') && t <= t' && IsScaled(t, e, c, res)
    ensures IsScaled(t', e, c, res)
  {
    ExtendVals(t, t', e);
    ExtendVals(t, t', res);
  }

  lemma ScaledZero(t: seq<Node>, e: Bvec)
    requires WellFormed(t) && InTable(t, e)
    ensures IsScaled(t, e, 0, Zeros(|e|))
  {
    forall env
      ensures InTable(t, Zeros(|e|)) && Val(t, Zeros(|e|), env) == Mod(Val(t, e, env) * 0, Pow2(|e|))
    {
      ZerosVal(t, |e|, env);
      SmallMod(0, Pow2(|e|));
    }
  }

  lemma DoubleMod(v: nat, p: nat)
    requires p > 0
    ensures 2 * (v % p) == (2 * v) % (2 * p)
  {
    var q, r := v / p, v % p;
    assert v == r + p * q;
    Associate(2, p, q);
    DivMod(2 * v, 2 * r, q, 2 * p);
  }

  /** Doubling the operand and halving the constant, with the operand added back if that was odd. */
  lemma ScaleHalf(v: nat, c: nat, p: nat, next: nat, rest: nat)
    requires p > 0 && next == 2 * (v % p) && rest == Mod(next * (c / 2), 2 * p)
    ensures c % 2 == 0 ==> rest == Mod(v * c, 2 * p)
    ensures c % 2 == 1 ==> Mod(v + rest, 2 * p) == Mod(v * c, 2 * p)
  {
    var h := c / 2;
    DoubleMod(v, p);
    ModProduct(2 * v, h, 2 * p);
    assert (2 * v) * h == v * (2 * h);
    if c % 2 == 1 {
      ModSum(v, v * (2 * h), 2 * p);
      Distribute(v, 1, 2 * h);
    }
  }

  lemma ScaledHalf(t: seq<Node>, e: Bvec, c: nat, rest: Bvec, res: Bvec)
    requires WellFormed(t) && e != [] && InTable(t, e) && IsScaled(t, ShiftedUp(e, 1, 0), c / 2, rest)
    requires if c % 2 == 1 then IsAddition(t, e, rest, res) else res == rest
    ensures IsScaled(t, e, c, res)
  {
    hide WellFormed, Eval, Val, Mod, Pow2;
    forall env ensures Val(t, res, env) == Mod(Val(t, e, env) * c, Pow2(|e|)) {
      ScaledAt(t, ShiftedUp(e, 1, 0), c / 2, rest, env);
      FalseBit(t, env);
      ShiftUpOne(t, e, 0, env);
      if c % 2 == 1 {
        AdditionAt(t, e, rest, res, env);
      }
      Pow2Next(|e| - 1);
      ScaleHalf(Val(t, e, env), c, Pow2(|e| - 1), Val(t, ShiftedUp(e, 1, 0), env), Val(t, rest, env));
    }
  }

  lemma ScaledAt(t: seq<Node>, e: Bvec, c: nat, res: Bvec, env: Env)
    requires WellFormed(t) && IsScaled(t, e, c, res)
    ensures Val(t, res, env) == Mod(Val(t, e, env) * c, Pow2(|e|))
  {
    hide Val, Eval, WellFormed, Pow2, Mod;
  }

  /** Division; by zero, every quotient bit is set and the remainder is the dividend. */
  ghost predicate IsDivision(t: seq<Node>, l: Bvec, r: Bvec, q: Bvec, rem: Bvec)
    requires WellFormed(t)
  {
    && InTable(t, l) && InTable(t, r) && InTable(t, q) && InTable(t, rem)
    && |l| == |r| == |q| == |rem|
    && forall env :: DividesTo(Val(t, l, env), Val(t, r, env), Val(t, q, env), Val(t, rem, env), |l|)
  }

  predicate DividesTo(l: nat, r: nat, q: nat, rem: nat, w: nat) {
    if r == 0 then q == Pow2(w) - 1 && rem == l else q == l / r && rem == l % r
  }

  /** After n rows of the division, numbers: what is subtracted so far, and the next subtrahend. */
  predicate DivRows(l: nat, r: nat, w: nat, n: nat, rem: nat, d: nat, q: nat) {
    && n <= w + 1
    && rem + r * q == l < Pow2(w)
    && (r > 0 ==> rem < Pow2(w + 1 - n) * r)
    && (n <= w ==> d == Pow2(w - n) * r)
    && (n == 0 ==> q == 0)
    && (r == 0 && n > 0 ==> q == Pow2(w) - Pow2(w + 1 - n))
  }

  lemma TimesPositive(p: nat, r: nat)
    ensures r > 0 ==> p * r >= p
    ensures r == 0 ==> p * r == 0
  {
  }

  lemma DivRowsStart(l: nat, r: nat, w: nat)
    requires l < Pow2(w)
    ensures DivRows(l, r, w, 0, l, Pow2(w) * r, 0)
  {
    Pow2Next(w);
    hide Pow2;
    TimesPositive(Pow2(w + 1), r);
  }

  lemma DivRowsStep(l: nat, r: nat, w: nat, n: nat, rem: nat, d: nat, q: nat)
    requires n <= w && DivRows(l, r, w, n, rem, d, q)
    ensures var rem' := if d <= rem then rem - d else rem;
      var q' := if d <= rem && n > 0 then q + Pow2(w - n) else q;
      DivRows(l, r, w, n + 1, rem', d / 2, q')
  {
    hide Pow2;
    var p := Pow2(w - n);
    Pow2Next(w - n);
    Associate(2, p, r);
    TimesPositive(p, r);
    if n < w {
      Pow2Next(w - n - 1);
      Associate(2, Pow2(w - n - 1), r);
    }
    if n == 0 {
      assert d <= rem ==> r == 0;
    } else {
      Distribute(r, q, p);
      Commute(p, r);
    }
  }

  lemma Commute(a: nat, b: nat)
    ensures a * b == b * a
  {
  }

  lemma DivRowsEnd(l: nat, r: nat, w: nat, rem: nat, d: nat, q: nat)
    requires DivRows(l, r, w, w + 1, rem, d, q)
    ensures DividesTo(l, r, q, rem, w)
  {
    assert Pow2(0) == 1;
    if r > 0 {
      DivMod(l, rem, q, r);
    }
  }

  ghost predicate Dividing(t: seq<Node>, left: Bvec, right: Bvec, n: nat, rem: Bvec, div: Bvec, res: Bvec)
    requires WellFormed(t)
  {
    && InTable(t, left) && InTable(t, right) && InTable(t, rem) && InTable(t, div) && InTable(t, res)
    && |left| == |right| == |res| > 0 && |rem| == |div| == 2 * |left|
    && n <= |left| + 1
    && (forall i :: 0 <= i < |res| && i + n <= |left| ==> res[i] == 0)
    && forall env :: DivRows(Val(t, left, env), Val(t, right, env), |left|, n, Val(t, rem, env), Val(t, div, env),
                             Val(t, res, env))
  }

  lemma ExtendDividing(t: seq<Node>, t': seq<Node>, left: Bvec, right: Bvec, n: nat, rem: Bvec, div: Bvec, res: Bvec)
    requires WellFormed(t) && WellFormed(t') && t <= t' && Dividing(t, left, right, n, rem, div, res)
    ensures Dividing(t', left, right, n, rem, div, res)
  {
    hide DivRows;
    ExtendVals(t, t', left);
    ExtendVals(t, t', right);
    ExtendVals(t, t', rem);
    ExtendVals(t, t', div);
    ExtendVals(t, t', res);
  }

  lemma DividingStart(t: seq<Node>, left: Bvec, right: Bvec)
    requires WellFormed(t) && InTable(t, left) && InTable(t, right) && |left| == |right| > 0
    ensures var w := |left|;
      Dividing(t, left, right, 0, Coerced(left, 2 * w), ShiftedUp(Coerced(right, 2 * w), w, 0), Zeros(w))
  {
    hide DivRows;
    var w := |left|;
    var rem, wide := Coerced(left, 2 * w), Coerced(right, 2 * w);
    forall env
      ensures InTable(t, rem) && InTable(t, ShiftedUp(wide, w, 0)) && InTable(t, Zeros(w))
      ensures DivRows(Val(t, left, env), Val(t, right, env), w, 0, Val(t, rem, env),
                      Val(t, ShiftedUp(wide, w, 0), env), Val(t, Zeros(w), env))
    {
      CoercedVal(t, left, 2 * w, env);
      CoercedVal(t, right, 2 * w, env);
      ValBound(t, left, env);
      ValBound(t, right, env);
      ShiftUpFar(t, wide, w, env);
      ZerosVal(t, w, env);
      DivRowsStart(Val(t, left, env), Val(t, right, env), w);
    }
  }

  lemma {:induction false} ValSet(t: seq<Node>, v: Bvec, i: nat, b: nat, env: Env)
    requires WellFormed(t) && InTable(t, v) && i < |v| && b < |t| && v[i] == 0
    ensures InTable(t, v[i := b])
    ensures Val(t, v[i := b], env) == Val(t, v, env) + Weigh(Eval(t, b, env), Pow2(i))
  {
    var last := |v| - 1;
    if i == last {
      assert v[i := b][..last] == v[..last];
    } else {
      assert v[i := b][..last] == v[..last][i := b];
      ValSet(t, v[..last], i, b, env);
    }
  }

  /** One row at one assignment. */
  lemma DividingRow(t: seq<Node>, left: Bvec, right: Bvec, n: nat, rem: Bvec, div: Bvec, res: Bvec,
                    p: nat, sub: Bvec, rem': Bvec, env: Env)
    requires WellFormed(t) && Dividing(t, left, right, n, rem, div, res) && n <= |left|
    requires Decides(t, BelowOrEqual, div, rem, p)
    requires IsSubtraction(t, rem, div, sub) && IsChoice(t, p, sub, rem, rem')
    ensures InTable(t, ShiftedDown(div, 1, 0))
    ensures var res' := if n > 0 then res[|left| - n := p] else res;
      InTable(t, res') &&
      DivRows(Val(t, left, env), Val(t, right, env), |left|, n + 1, Val(t, rem', env),
              Val(t, ShiftedDown(div, 1, 0), env), Val(t, res', env))
  {
    hide WellFormed, Eval, Val, Pow2, Mod, DivRows;
    var w := |left|;
    var l, r := Val(t, left, env), Val(t, right, env);
    var x, d, q := Val(t, rem, env), Val(t, div, env), Val(t, res, env);
    assert DivRows(l, r, w, n, x, d, q);
    assert Eval(t, p, env) <==> d <= x;
    ChoiceVal(t, p, sub, rem, rem', env);
    SubtractionAt(t, rem, div, sub, env);
    ValBound(t, rem, env);
    if d <= x {
      SmallMod(x - d, Pow2(|rem|));
      NoWrap(x - d, Pow2(|rem|));
    }
    ShiftDownOne(t, div, env);
    if n > 0 {
      ValSet(t, res, w - n, p, env);
    }
    DivRowsStep(l, r, w, n, x, d, q);
  }

  lemma SubtractionAt(t: seq<Node>, l: Bvec, r: Bvec, res: Bvec, env: Env)
    requires WellFormed(t) && IsSubtraction(t, l, r, res)
    ensures InTable(t, l) && InTable(t, r) && InTable(t, res) && |res| == |l| == |r|
    ensures Val(t, res, env) == Mod(Val(t, l, env) - Val(t, r, env), Pow2(|l|))
  {
    hide WellFormed, Val, Eval, Pow2, Mod;
  }

  lemma DividingStep(t: seq<Node>, left: Bvec, right: Bvec, n: nat, rem: Bvec, div: Bvec, res: Bvec,
                     p: nat, sub: Bvec, rem': Bvec)
    requires WellFormed(t) && Dividing(t, left, right, n, rem, div, res) && n <= |left|
    requires Decides(t, BelowOrEqual, div, rem, p)
    requires IsSubtraction(t, rem, div, sub) && IsChoice(t, p, sub, rem, rem')
    ensures var res' := if n > 0 then res[|left| - n := p] else res;
      Dividing(t, left, right, n + 1, rem', ShiftedDown(div, 1, 0), res')
  {
    hide WellFormed, Eval, Val, DivRows, IsSubtraction;
    var res' := if n > 0 then res[|left| - n := p] else res;
    forall env
      ensures InTable(t, ShiftedDown(div, 1, 0)) && InTable(t, res')
      ensures DivRows(Val(t, left, env), Val(t, right, env), |left|, n + 1, Val(t, rem', env),
                      Val(t, ShiftedDown(div, 1, 0), env), Val(t, res', env))
    {
      DividingRow(t, left, right, n, rem, div, res, p, sub, rem', env);
    }
  }

  lemma DividingEnd(t: seq<Node>, left: Bvec, right: Bvec, rem: Bvec, div: Bvec, res: Bvec)
    requires WellFormed(t) && Dividing(t, left, right, |left| + 1, rem, div, res)
    ensures IsDivision(t, left, right, res, Coerced(rem, |left|))
  {
    forall env
      ensures InTable(t, Coerced(rem, |left|))
      ensures DividesTo(Val(t, left, env), Val(t, right, env), Val(t, res, env), Val(t, Coerced(rem, |left|), env), |left|)
    {
      DivRowsEnd(Val(t, left, env), Val(t, right, env), |left|, Val(t, rem, env), Val(t, div, env), Val(t, res, env));
      CoercedVal(t, rem, |left|, env);
      RemainderSmall(Val(t, left, env), Val(t, right, env), Val(t, res, env), Val(t, rem, env), |left|);
    }
  }

  lemma RemainderSmall(l: nat, r: nat, q: nat, rem: nat, w: nat)
    requires rem + r * q == l < Pow2(w)
    ensures rem % Pow2(w) == rem
  {
    assert r * q >= 0;
    SmallMod(rem, Pow2(w));
  }
}
