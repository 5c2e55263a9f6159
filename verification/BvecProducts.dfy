/** Multiplication and division of bit vectors. */
module BvecProducts {
  import opened Table
  import opened Meaning
  import opened Powers
  import opened BitVectors
  import opened BitSlices
  import opened Division
  import opened Kernel
  import opened BvecOps
  import FixedDivision

  /** bvec_mulfixed: multiplication by a constant, modulo 2^n. */
  method MulFixed(k: Kernel, e: Bvec, c: nat) returns (res: Bvec)
    requires k.Valid() && InTable(k.nodes, e)
    modifies k
    ensures k.Valid() && k.Kept()
    ensures InTable(k.nodes, e) && IsScaled(k.nodes, e, c, res)
    decreases c
  {
    hide k.Valid, WellFormed, Eval, Val, IsAddition, IsScaled;
    if |e| == 0 {
      ScaledEmpty(k.nodes, e, c);
      return [];
    }
    if c == 0 {
      res := Build(|e|, false);
      ScaledZero(k.nodes, e);
      return;
    }
    var next := Build(|e|, false);
    for n := 1 to |e|
      invariant |next| == |e| && next[0] == 0
      invariant forall i :: 1 <= i < n ==> next[i] == e[i - 1]
    {
      next := next[n := e[n - 1]];
    }
    assert next == ShiftedUp(e, 1, 0);
    ghost var t := k.nodes;
    Constants(t);
    var rest := MulFixed(k, next, c / 2);
    ghost var t1 := k.nodes;
    ScaledWidth(t1, next, c / 2, rest);
    if c % 2 == 1 {
      var err;
      res, err := Add(k, e, rest);
    } else {
      res := rest;
    }
    ExtendScaled(t1, k.nodes, next, c / 2, rest);
    ScaledHalf(k.nodes, e, c, rest, res);
  }

  lemma ScaledEmpty(t: seq<Node>, e: Bvec, c: nat)
    requires WellFormed(t) && |e| == 0
    ensures IsScaled(t, e, c, [])
  {
    forall env ensures Val(t, [], env) == Mod(Val(t, e, env) * c, Pow2(0)) {
      assert Pow2(0) == 1;
    }
  }

  lemma ScaledWidth(t: seq<Node>, e: Bvec, c: nat, res: Bvec)
    requires WellFormed(t) && IsScaled(t, e, c, res)
    ensures |res| == |e| && InTable(t, res)
  {
  }

  /** The exact product, in as many bits as both operands have together. */
  ghost predicate IsProduct(t: seq<Node>, l: Bvec, r: Bvec, res: Bvec)
    requires WellFormed(t)
  {
    && InTable(t, l) && InTable(t, r) && InTable(t, res) && |res| == |l| + |r|
    && forall env :: Val(t, res, env) == Val(t, l, env) * Val(t, r, env)
  }

  lemma ProductEnd(t: seq<Node>, left: Bvec, right: Bvec, acc: Bvec, shift: Bvec)
    requires WellFormed(t) && Product(t, left, right, |right|, acc, shift)
    ensures IsProduct(t, left, right, acc)
  {
    assert right[..|right|] == right;
  }

  lemma ProductShape(t: seq<Node>, left: Bvec, right: Bvec, n: nat, acc: Bvec, shift: Bvec)
    requires WellFormed(t) && n <= |right| && Product(t, left, right, n, acc, shift)
    ensures InTable(t, right) && InTable(t, acc) && InTable(t, shift) && |acc| == |shift| == |left| + |right|
  {
  }

  lemma AdditionShape(t: seq<Node>, l: Bvec, r: Bvec, res: Bvec)
    requires WellFormed(t) && IsAddition(t, l, r, res)
    ensures InTable(t, res) && |res| == |l|
  {
  }

  /** bvec_mul. */
  method Mul(k: Kernel, left: Bvec, right: Bvec) returns (product: Bvec)
    requires k.Valid() && InTable(k.nodes, left) && InTable(k.nodes, right)
    modifies k
    ensures k.Valid() && k.Kept()
    ensures left == [] || right == [] ==> product == []
    ensures left != [] && right != [] ==> IsProduct(k.nodes, left, right, product)
  {
    hide k.Valid, WellFormed, Eval, Val, IsAddition, IsChoice, Product, IsProduct, Pow2;
    if left == [] || right == [] {
      return [];
    }
    var bitnum := |left| + |right|;
    var zero := Build(bitnum, false);
    var res := Buffer(zero);
    var wide := Coerce(bitnum, left);
    var shift := Buffer(wide);
    ProductStart(k.nodes, left, right);
    for n := 0 to |right|
      invariant k.Valid() && k.Kept()
      invariant Product(k.nodes, left, right, n, res[..], shift[..])
    {
      MulRow(k, left, right, n, res, shift);
    }
    ProductEnd(k.nodes, left, right, res[..], shift[..]);
    product := res[..];
  }

  /** One row: add where the bit of the multiplier is set, then shift. */
  method MulRow(k: Kernel, left: Bvec, right: Bvec, n: nat, res: array<nat>, shift: array<nat>)
    requires k.Valid() && n < |right| && res != shift
    requires Product(k.nodes, left, right, n, res[..], shift[..])
    modifies k, res, shift
    ensures k.Valid() && k.Kept()
    ensures Product(k.nodes, left, right, n + 1, res[..], shift[..])
  {
    hide k.Valid, WellFormed, Eval, Val, IsAddition, IsChoice, Product, Pow2;
    ghost var t := k.nodes;
    ghost var acc, row := res[..], shift[..];
    ProductShape(t, left, right, n, acc, row);
    var added, err := Add(k, res[..], shift[..]);
    ghost var t1 := k.nodes;
    AdditionShape(t1, acc, row, added);
    SelectInPlace(k, right[n], added, res);
    ExtendProduct(t, k.nodes, left, right, n, acc, row);
    ExtendAddition(t1, k.nodes, acc, row, added);
    ShiftUpInPlace(shift);
    ProductStep(k.nodes, left, right, n, acc, row, added, res[..]);
  }

  /** bvec_div: true quotient and remainder for equal widths. */
  method Div(k: Kernel, left: Bvec, right: Bvec) returns (result: Bvec, remainder: Bvec, err: int)
    requires k.Valid() && InTable(k.nodes, left) && InTable(k.nodes, right)
    modifies k
    ensures k.Valid() && k.Kept()
    ensures err == if left == [] || right == [] || |left| != |right| then BVEC_SIZE else 0
    ensures err != 0 ==> k.nodes == old(k.nodes)
    ensures err == 0 ==> IsDivision(k.nodes, left, right, result, remainder)
  {
    hide k.Valid, WellFormed, Eval, Val, Dividing, IsDivision, Pow2, Coerced, ShiftedUp;
    if |left| == 0 || |right| == 0 || |left| != |right| {
      return [], [], BVEC_SIZE;
    }
    var rem, div, res := DivStart(k.nodes, left, right);
    for n := 0 to |right| + 1
      invariant k.Valid() && k.Kept()
      invariant Dividing(k.nodes, left, right, n, rem[..], div[..], res)
    {
      res := DivRow(k, left, right, n, rem, div, res);
    }
    DividingEnd(k.nodes, left, right, rem[..], div[..], res);
    result := res;
    remainder := Coerce(|right|, rem[..]);
    err := 0;
  }

  /** Dividend, divisor and quotient as the loop takes them up. */
  method DivStart(ghost t: seq<Node>, left: Bvec, right: Bvec) returns (rem: array<nat>, div: array<nat>, res: Bvec)
    requires WellFormed(t) && InTable(t, left) && InTable(t, right) && |left| == |right| > 0
    ensures fresh(rem) && fresh(div) && rem != div
    ensures Dividing(t, left, right, 0, rem[..], div[..], res)
  {
    hide WellFormed, Dividing, Coerced, ShiftedUp;
    var bitnum := |left| + |right|;
    var wide := Coerce(bitnum, left);
    rem := Buffer(wide);
    wide := Coerce(bitnum, right);
    var err;
    wide, err := ShlFixed(wide, |left|, 0);
    div := Buffer(wide);
    res := Build(|right|, false);
    assert bitnum == 2 * |left|;
    DividingStart(t, left, right);
  }

  lemma DividingShape(t: seq<Node>, left: Bvec, right: Bvec, n: nat, rem: Bvec, div: Bvec, res: Bvec)
    requires WellFormed(t) && Dividing(t, left, right, n, rem, div, res)
    ensures InTable(t, rem) && InTable(t, div)
    ensures |left| == |right| == |res| > 0 && |rem| == |div| == 2 * |left|
  {
  }

  lemma SubtractionShape(t: seq<Node>, l: Bvec, r: Bvec, res: Bvec)
    requires WellFormed(t) && IsSubtraction(t, l, r, res)
    ensures InTable(t, res) && |res| == |l|
  {
  }

  method DivRow(k: Kernel, left: Bvec, right: Bvec, n: nat, rem: array<nat>, div: array<nat>, before: Bvec)
    returns (res: Bvec)
    requires k.Valid() && n <= |left| && rem != div
    requires Dividing(k.nodes, left, right, n, rem[..], div[..], before)
    modifies k, rem, div
    ensures k.Valid() && k.Kept()
    ensures Dividing(k.nodes, left, right, n + 1, rem[..], div[..], res)
  {
    hide k.Valid, WellFormed, Eval, Val, IsSubtraction, IsChoice, Dividing, Decides, Pow2;
    ghost var t := k.nodes;
    ghost var x, d := rem[..], div[..];
    DividingShape(t, left, right, n, x, d, before);
    var divLteRem, err := Compare(k, BelowOrEqual, div[..], rem[..]);
    ghost var t1 := k.nodes;
    var remSubDiv, err' := Sub(k, rem[..], div[..]);
    ghost var t2 := k.nodes;
    SubtractionShape(t2, x, d, remSubDiv);
    SelectInPlace(k, divLteRem, remSubDiv, rem);
    ExtendDividing(t, k.nodes, left, right, n, x, d, before);
    ExtendDecides(t1, k.nodes, BelowOrEqual, d, x, divLteRem);
    ExtendSubtraction(t2, k.nodes, x, d, remSubDiv);
    res := before;
    if n > 0 {
      res := res[|right| - n := divLteRem];
    }
    ShiftDownInPlace(div);
    DividingStep(k.nodes, left, right, n, x, d, before, divLteRem, remSubDiv, rem[..]);
  }

  /** The registers after some steps, as numbers. */
  ghost predicate RunsTo(t: seq<Node>, divisor: Bvec, rem: Bvec, res: Bvec, steps: nat, rem': Bvec, res': Bvec)
    requires WellFormed(t)
  {
    && InTable(t, divisor) && InTable(t, rem) && InTable(t, res) && InTable(t, rem') && InTable(t, res')
    && |divisor| == |rem| == |res| == |rem'| == |res'| > 0
    && forall env :: RunsAt(t, divisor, rem, res, steps, rem', res', env)
  }

  ghost predicate RunsAt(t: seq<Node>, divisor: Bvec, rem: Bvec, res: Bvec, steps: nat, rem': Bvec, res': Bvec, env: Env)
    requires WellFormed(t) && InTable(t, divisor)
    requires InTable(t, rem) && InTable(t, res) && InTable(t, rem') && InTable(t, res')
    requires |divisor| > 0
  {
    FixedDivision.Registers(Val(t, rem', env), Val(t, res', env)) ==
    FixedDivision.Run(Pow2(|divisor| - 1), Val(t, divisor, env),
                      FixedDivision.Registers(Val(t, rem, env), Val(t, res, env)), steps)
  }

  lemma ExtendRuns(t: seq<Node>, t': seq<Node>, divisor: Bvec, rem: Bvec, res: Bvec, steps: nat, rem': Bvec, res': Bvec)
    requires WellFormed(t) && WellFormed(t') && t <= t' && RunsTo(t, divisor, rem, res, steps, rem', res')
    ensures RunsTo(t', divisor, rem, res, steps, rem', res')
  {
    ExtendVals(t, t', divisor);
    ExtendVals(t, t', rem);
    ExtendVals(t, t', res);
    ExtendVals(t, t', rem');
    ExtendVals(t, t', res');
    forall env ensures RunsAt(t', divisor, rem, res, steps, rem', res', env) {
      assert RunsAt(t, divisor, rem, res, steps, rem', res', env);
    }
  }

  /** One step of the circuit is one step on the numbers. */
  lemma RunsOne(t: seq<Node>, divisor: Bvec, rem: Bvec, res: Bvec, smaller: nat, sub: Bvec, tmp: Bvec)
    requires WellFormed(t) && |divisor| == |rem| == |res| > 0 && InTable(t, res)
    requires Decides(t, BelowOrEqual, divisor, rem, smaller)
    requires IsChoice(t, smaller, divisor, Zeros(|divisor|), sub) && IsSubtraction(t, rem, sub, tmp)
    ensures RunsTo(t, divisor, rem, res, 1, ShiftedUp(tmp, 1, res[|res| - 1]), ShiftedUp(res, 1, smaller))
  {
    var rem', res' := ShiftedUp(tmp, 1, res[|res| - 1]), ShiftedUp(res, 1, smaller);
    forall env
      ensures InTable(t, rem') && InTable(t, res') && RunsAt(t, divisor, rem, res, 1, rem', res', env)
    {
      RunsOneAt(t, divisor, rem, res, smaller, sub, tmp, env);
    }
  }

  lemma RunsOneAt(t: seq<Node>, divisor: Bvec, rem: Bvec, res: Bvec, smaller: nat, sub: Bvec, tmp: Bvec, env: Env)
    requires WellFormed(t) && |divisor| == |rem| == |res| > 0 && InTable(t, res)
    requires Decides(t, BelowOrEqual, divisor, rem, smaller)
    requires IsChoice(t, smaller, divisor, Zeros(|divisor|), sub) && IsSubtraction(t, rem, sub, tmp)
    ensures var rem', res' := ShiftedUp(tmp, 1, res[|res| - 1]), ShiftedUp(res, 1, smaller);
      InTable(t, rem') && InTable(t, res') && RunsAt(t, divisor, rem, res, 1, rem', res', env)
  {
    hide WellFormed, Eval, Val, Mod, Pow2, IsSubtraction, IsChoice, FixedDivision.Run, ShiftedUp;
    ChoiceVal(t, smaller, divisor, Zeros(|divisor|), sub, env);
    ChoiceShape(t, smaller, divisor, Zeros(|divisor|), sub);
    ZerosVal(t, |divisor|, env);
    SubtractionAt(t, rem, sub, tmp, env);
    ValBound(t, rem, env);
    NoWrap(Val(t, rem, env) - Val(t, sub, env), Pow2(|rem|));
    ShiftUpOne(t, tmp, res[|res| - 1], env);
    ShiftUpOne(t, res, smaller, env);
    TopBit(t, res, env);
    OneStep(Pow2(|divisor| - 1), Val(t, divisor, env), FixedDivision.Registers(Val(t, rem, env), Val(t, res, env)));
  }

  lemma OneStep(p: nat, d: nat, x: FixedDivision.Registers)
    requires p > 0
    ensures FixedDivision.Run(p, d, x, 1) == FixedDivision.Step(p, d, x)
  {
    assert FixedDivision.Run(p, d, x, 1) == FixedDivision.Run(p, d, FixedDivision.Step(p, d, x), 0);
  }

  lemma RunsOn(t: seq<Node>, divisor: Bvec, rem: Bvec, res: Bvec, rem1: Bvec, res1: Bvec, steps: nat, rem': Bvec, res': Bvec)
    requires WellFormed(t) && RunsTo(t, divisor, rem, res, 1, rem1, res1) && RunsTo(t, divisor, rem1, res1, steps, rem', res')
    ensures RunsTo(t, divisor, rem, res, steps + 1, rem', res')
  {
    var more := steps + 1;
    forall env ensures RunsAt(t, divisor, rem, res, more, rem', res', env) {
      assert RunsAt(t, divisor, rem, res, 1, rem1, res1, env);
      assert RunsAt(t, divisor, rem1, res1, steps, rem', res', env);
      hide WellFormed, Eval, Val, Pow2;
      OneStep(Pow2(|divisor| - 1), Val(t, divisor, env), FixedDivision.Registers(Val(t, rem, env), Val(t, res, env)));
    }
  }

  /** bvec_div_rec. */
  method DivRec(k: Kernel, divisor: Bvec, remainder: Bvec, result: Bvec, step: nat)
    returns (newRemainder: Bvec, newResult: Bvec)
    requires k.Valid() && InTable(k.nodes, divisor) && InTable(k.nodes, remainder) && InTable(k.nodes, result)
    requires |divisor| == |remainder| == |result| > 0 && step > 0
    modifies k
    ensures k.Valid() && k.Kept()
    ensures RunsTo(k.nodes, divisor, remainder, result, step, newRemainder, newResult)
    decreases step
  {
    hide k.Valid, WellFormed, Eval, Val, IsSubtraction, IsChoice, Decides, RunsTo, Pow2;
    var isSmaller, err := Compare(k, BelowOrEqual, divisor, remainder);
    ghost var t1 := k.nodes;
    newResult, err := ShlFixed(result, 1, isSmaller);
    var zero := Build(|divisor|, false);
    var sub := Buffer(zero);
    Constants(t1);
    SelectInPlace(k, isSmaller, divisor, sub);
    ghost var t2 := k.nodes;
    ChoiceShape(t2, isSmaller, divisor, zero, sub[..]);
    var tmp;
    tmp, err := Sub(k, remainder, sub[..]);
    newRemainder, err := ShlFixed(tmp, 1, result[|divisor| - 1]);
    ExtendDecides(t1, k.nodes, BelowOrEqual, divisor, remainder, isSmaller);
    ExtendChoice(t2, k.nodes, isSmaller, divisor, zero, sub[..]);
    RunsOne(k.nodes, divisor, remainder, result, isSmaller, sub[..], tmp);
    if step > 1 {
      ghost var t3 := k.nodes;
      ghost var rem1, res1 := newRemainder, newResult;
      RunsShape(t3, divisor, remainder, result, 1, rem1, res1);
      newRemainder, newResult := DivRec(k, divisor, newRemainder, newResult, step - 1);
      ExtendRuns(t3, k.nodes, divisor, remainder, result, 1, rem1, res1);
      RunsOn(k.nodes, divisor, remainder, result, rem1, res1, step - 1, newRemainder, newResult);
    }
  }

  lemma ChoiceShape(t: seq<Node>, c: nat, a: Bvec, b: Bvec, res: Bvec)
    requires WellFormed(t) && IsChoice(t, c, a, b, res)
    ensures InTable(t, res) && |res| == |a|
  {
  }

  lemma RunsShape(t: seq<Node>, divisor: Bvec, rem: Bvec, res: Bvec, steps: nat, rem': Bvec, res': Bvec)
    requires WellFormed(t) && RunsTo(t, divisor, rem, res, steps, rem', res')
    ensures InTable(t, divisor) && InTable(t, rem') && InTable(t, res')
    ensures |divisor| == |rem'| == |res'| > 0
  {
  }

  lemma ExtendChoice(t: seq<Node>, t': seq<Node>, c: nat, a: Bvec, b: Bvec, res: Bvec)
    requires WellFormed(t) && WellFormed(t') && t <= t' && IsChoice(t, c, a, b, res)
    ensures IsChoice(t', c, a, b, res)
  {
    hide IsIte;
    forall i | 0 <= i < |res| ensures IsIte(t', c, a[i], b[i], res[i]) {
      ExtendIte(t, t', c, a[i], b[i], res[i]);
    }
  }

  /** Division by a constant, which is first reduced to n bits. */
  ghost predicate IsFixedDivision(t: seq<Node>, e: Bvec, c: nat, q: Bvec, rem: Bvec)
    requires WellFormed(t)
  {
    && InTable(t, e) && InTable(t, q) && InTable(t, rem) && |e| == |q| == |rem| > 0
    && forall env ::
      && Val(t, q, env) == FixedDivision.FixedQuotient(|e|, c % Pow2(|e|), Val(t, e, env))
      && Val(t, rem, env) == FixedDivision.FixedRemainder(|e|, c % Pow2(|e|), Val(t, e, env))
  }

  /** bvec_divfixed.  The vector must not be empty: its top bit is read. */
  method DivFixed(k: Kernel, e: Bvec, c: int) returns (res: Bvec, rem: Bvec, err: int)
    requires k.Valid() && InTable(k.nodes, e) && e != []
    modifies k
    ensures k.Valid() && k.Kept()
    ensures err == if c > 0 then 0 else BVEC_DIVZERO
    ensures err != 0 ==> k.nodes == old(k.nodes)
    ensures c > 0 ==> IsFixedDivision(k.nodes, e, c, res, rem)
  {
    hide k.Valid, WellFormed, Eval, Val, RunsTo, IsFixedDivision, Pow2;
    if c <= 0 {
      return [], [], BVEC_DIVZERO;
    }
    var divisor := Con(|e|, c);
    var tmp := Build(|e|, false);
    var tmpremainder, result;
    tmpremainder, err := ShlFixed(tmp, 1, e[|e| - 1]);
    result, err := ShlFixed(e, 1, 0);
    Constants(k.nodes);
    ghost var rem0, res0 := tmpremainder, result;
    tmpremainder, result := DivRec(k, divisor, tmpremainder, result, |divisor|);
    RunsShape(k.nodes, divisor, rem0, res0, |e|, tmpremainder, result);
    res := result;
    rem, err := ShrFixed(tmpremainder, 1, 0);
    FixedDivides(k.nodes, e, c, divisor, rem0, res0, tmpremainder, result);
  }

  lemma FixedDivides(t: seq<Node>, e: Bvec, c: nat, divisor: Bvec, rem0: Bvec, res0: Bvec, rem1: Bvec, res: Bvec)
    requires WellFormed(t) && e != [] && InTable(t, e) && divisor == Constant(|e|, c)
    requires rem0 == ShiftedUp(Zeros(|e|), 1, e[|e| - 1]) && res0 == ShiftedUp(e, 1, 0)
    requires RunsTo(t, divisor, rem0, res0, |e|, rem1, res)
    ensures IsFixedDivision(t, e, c, res, ShiftedDown(rem1, 1, 0))
  {
    var d := c % Pow2(|e|);
    forall env
      ensures InTable(t, ShiftedDown(rem1, 1, 0))
      ensures Val(t, res, env) == FixedDivision.FixedQuotient(|e|, d, Val(t, e, env))
      ensures Val(t, ShiftedDown(rem1, 1, 0), env) == FixedDivision.FixedRemainder(|e|, d, Val(t, e, env))
    {
      ConstantVal(t, |e|, c, env);
      FixedDividesAt(t, e, d, divisor, rem0, res0, rem1, res, env);
    }
  }

  lemma FixedDividesAt(t: seq<Node>, e: Bvec, d: nat, divisor: Bvec, rem0: Bvec, res0: Bvec, rem1: Bvec, res: Bvec, env: Env)
    requires WellFormed(t) && e != [] && InTable(t, e) && InTable(t, divisor) && Val(t, divisor, env) == d
    requires rem0 == ShiftedUp(Zeros(|e|), 1, e[|e| - 1]) && res0 == ShiftedUp(e, 1, 0)
    requires RunsTo(t, divisor, rem0, res0, |e|, rem1, res)
    ensures InTable(t, ShiftedDown(rem1, 1, 0))
    ensures Val(t, res, env) == FixedDivision.FixedQuotient(|e|, d, Val(t, e, env))
    ensures Val(t, ShiftedDown(rem1, 1, 0), env) == FixedDivision.FixedRemainder(|e|, d, Val(t, e, env))
  {
    hide WellFormed, Eval, Val, Pow2, FixedDivision.Run, FixedDivision.FixedQuotient, FixedDivision.FixedRemainder;
    hide ShiftedUp, ShiftedDown, RunsTo;
    RunsAtOne(t, divisor, rem0, res0, |e|, rem1, res, env);
    FixedStart(t, e, rem0, res0, env);
    ShiftDownOne(t, rem1, env);
    ValBound(t, e, env);
    FixedDivision.RunDivides(|e|, d, Val(t, e, env));
  }

  lemma RunsAtOne(t: seq<Node>, divisor: Bvec, rem: Bvec, res: Bvec, steps: nat, rem': Bvec, res': Bvec, env: Env)
    requires WellFormed(t) && RunsTo(t, divisor, rem, res, steps, rem', res')
    ensures InTable(t, divisor) && InTable(t, rem) && InTable(t, res) && InTable(t, rem') && InTable(t, res')
    ensures |divisor| == |rem| == |res| == |rem'| == |res'| > 0
    ensures RunsAt(t, divisor, rem, res, steps, rem', res', env)
  {
  }

  /** The registers at the start: the top bit of the dividend, and the rest of it one place up. */
  lemma FixedStart(t: seq<Node>, e: Bvec, rem0: Bvec, res0: Bvec, env: Env)
    requires WellFormed(t) && e != [] && InTable(t, e)
    requires rem0 == ShiftedUp(Zeros(|e|), 1, e[|e| - 1]) && res0 == ShiftedUp(e, 1, 0)
    ensures InTable(t, rem0) && Val(t, rem0, env) == Val(t, e, env) / Pow2(|e| - 1)
    ensures InTable(t, res0) && Val(t, res0, env) == 2 * (Val(t, e, env) % Pow2(|e| - 1))
  {
    hide WellFormed, Eval, Val, Pow2;
    ZerosVal(t, |e|, env);
    SmallMod(0, Pow2(|e| - 1));
    FalseBit(t, env);
    ShiftUpOne(t, Zeros(|e|), e[|e| - 1], env);
    TopBit(t, e, env);
    ShiftUpOne(t, e, 0, env);
  }
}
