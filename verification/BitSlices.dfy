/** Constants, slices and shifts of bit vectors, as numbers. */
module BitSlices {
  import opened Table
  import opened Powers
  import opened BitVectors

  lemma {:induction false} ValConcat(t: seq<Node>, a: Bvec, b: Bvec, env: Env)
    requires WellFormed(t) && InTable(t, a) && InTable(t, b)
    ensures InTable(t, a + b)
    ensures Val(t, a + b, env) == Val(t, a, env) + Pow2(|a|) * Val(t, b, env)
    decreases |b|
  {
    if b == [] {
      assert a + b == a;
    } else {
      var last := |b| - 1;
      var w := Weigh(Eval(t, b[last], env), Pow2(last));
      assert (a + b)[..|a| + last] == a + b[..last];
      ValConcat(t, a, b[..last], env);
      Pow2Add(|a|, last);
      Distribute(Pow2(|a|), Val(t, b[..last], env), w);
    }
  }

  lemma DivMod(x: nat, low: nat, high: nat, p: nat)
    requires low < p && x == low + p * high
    ensures x % p == low && x / p == high
  {
    var q, r := x / p, x % p;
    assert x == p * q + r;
    Between(p, q - high, low - r);
    assert p * (q - high) == p * q - p * high;
  }

  /** A multiple of p that lies strictly between -p and p is zero. */
  lemma Between(p: int, d: int, x: int)
    requires -p < x < p
    ensures p * d == x ==> d == 0
  {
    if d > 0 { assert p * d >= p; }
    if d < 0 { assert p * d <= -p; }
  }

  lemma SmallMod(x: nat, p: nat)
    requires x < p
    ensures x % p == x
  {
  }

  lemma NoWrap(x: nat, p: nat)
    requires x < p
    ensures Mod(x, p) == x
  {
  }

  /** The low and the high part of a vector are remainder and quotient. */
  lemma ValSplit(t: seq<Node>, v: Bvec, m: nat, env: Env)
    requires WellFormed(t) && InTable(t, v) && m <= |v|
    ensures Val(t, v[..m], env) == Val(t, v, env) % Pow2(m)
    ensures Val(t, v[m..], env) == Val(t, v, env) / Pow2(m)
  {
    assert v[..m] + v[m..] == v;
    ValConcat(t, v[..m], v[m..], env);
    ValBound(t, v[..m], env);
    DivMod(Val(t, v, env), Val(t, v[..m], env), Val(t, v[m..], env), Pow2(m));
  }

  lemma {:induction false} ZerosVal(t: seq<Node>, n: nat, env: Env)
    requires WellFormed(t)
    ensures InTable(t, Zeros(n)) && Val(t, Zeros(n), env) == 0
  {
    if n > 0 {
      assert Zeros(n)[..n - 1] == Zeros(n - 1);
      ZerosVal(t, n - 1, env);
    }
  }

  function Zeros(n: nat): (v: Bvec)
    ensures |v| == n
  {
    seq(n, _ => 0)
  }

  /** bvec_coerce: cut off or padded at the top. */
  function Coerced(v: Bvec, n: nat): (w: Bvec)
    ensures |w| == n
  {
    if n <= |v| then v[..n] else v + Zeros(n - |v|)
  }

  lemma CoercedVal(t: seq<Node>, v: Bvec, n: nat, env: Env)
    requires WellFormed(t) && InTable(t, v)
    ensures InTable(t, Coerced(v, n))
    ensures Val(t, Coerced(v, n), env) == if n <= |v| then Val(t, v, env) % Pow2(n) else Val(t, v, env)
  {
    if n <= |v| {
      ValSplit(t, v, n, env);
    } else {
      ZerosVal(t, n - |v|, env);
      ValConcat(t, v, Zeros(n - |v|), env);
    }
  }

  /** bvec_shlfixed: n - pos bits move up and c fills the bottom. */
  function ShiftedUp(v: Bvec, pos: nat, c: nat): (w: Bvec)
    ensures |w| == |v|
  {
    if pos >= |v| then seq(|v|, _ => c) else seq(pos, _ => c) + v[..|v| - pos]
  }

  /** bvec_shrfixed. */
  function ShiftedDown(v: Bvec, pos: nat, c: nat): (w: Bvec)
    ensures |w| == |v|
  {
    if pos >= |v| then seq(|v|, _ => c) else v[pos..] + seq(pos, _ => c)
  }

  /** One place up, modulo 2^n: the top bit is lost. */
  lemma ShiftUpOne(t: seq<Node>, v: Bvec, c: nat, env: Env)
    requires WellFormed(t) && InTable(t, v) && v != [] && c < |t|
    ensures InTable(t, ShiftedUp(v, 1, c))
    ensures Val(t, ShiftedUp(v, 1, c), env) == 2 * (Val(t, v, env) % Pow2(|v| - 1)) + Bit(Eval(t, c, env))
  {
    hide Val, Pow2, WellFormed;
    var low := v[..|v| - 1];
    assert ShiftedUp(v, 1, c) == [c] + low;
    ValSplit(t, v, |v| - 1, env);
    ValCons(t, c, low, env);
  }

  /** Zeros from below multiply by a power of two, as long as nothing is lost. */
  lemma ShiftUpFar(t: seq<Node>, v: Bvec, pos: nat, env: Env)
    requires WellFormed(t) && InTable(t, v) && pos < |v| && Val(t, v, env) < Pow2(|v| - pos)
    ensures InTable(t, ShiftedUp(v, pos, 0))
    ensures Val(t, ShiftedUp(v, pos, 0), env) == Pow2(pos) * Val(t, v, env)
  {
    var low := v[..|v| - pos];
    ValSplit(t, v, |v| - pos, env);
    SmallMod(Val(t, v, env), Pow2(|v| - pos));
    hide Val, Pow2;
    ZerosVal(t, pos, env);
    ValConcat(t, Zeros(pos), low, env);
    assert ShiftedUp(v, pos, 0) == Zeros(pos) + low;
  }

  /** A row of equal bits. */
  function Filled(n: nat, c: nat): (fill: Bvec)
    ensures |fill| == n && forall i :: 0 <= i < n ==> fill[i] == c
  {
    seq(n, _ => c)
  }

  lemma {:induction false} FilledVal(t: seq<Node>, n: nat, c: nat, env: Env)
    requires WellFormed(t) && c < |t|
    ensures InTable(t, Filled(n, c)) && Val(t, Filled(n, c), env) == if Eval(t, c, env) then Pow2(n) - 1 else 0
  {
    if n > 0 {
      assert Filled(n, c)[..n - 1] == Filled(n - 1, c);
      FilledVal(t, n - 1, c, env);
    }
  }

  /** Up by any distance: what does not go over the top is multiplied, and the fill bits are below it. */
  lemma ShiftUpIs(t: seq<Node>, v: Bvec, pos: nat, c: nat, env: Env)
    requires WellFormed(t) && InTable(t, v) && c < |t|
    ensures InTable(t, ShiftedUp(v, pos, c))
    ensures var moved := if pos < |v| then pos else |v|;
      Val(t, ShiftedUp(v, pos, c), env) ==
        Pow2(moved) * Mod(Val(t, v, env), Pow2(|v| - moved)) + if Eval(t, c, env) then Pow2(moved) - 1 else 0
  {
    hide Val, Pow2, Mod, Filled, ShiftedUp, WellFormed;
    var moved := if pos < |v| then pos else |v|;
    FilledVal(t, moved, c, env);
    LowVal(t, v, |v| - moved, env);
    ShiftedUpParts(v, pos, c);
    FilledBelow(t, Filled(moved, c), v[..|v| - moved], env);
  }

  lemma LowVal(t: seq<Node>, v: Bvec, m: nat, env: Env)
    requires WellFormed(t) && InTable(t, v) && m <= |v|
    ensures InTable(t, v[..m]) && Val(t, v[..m], env) == Mod(Val(t, v, env), Pow2(m))
  {
    ValSplit(t, v, m, env);
  }

  lemma ShiftedUpParts(v: Bvec, pos: nat, c: nat)
    ensures var moved := if pos < |v| then pos else |v|; ShiftedUp(v, pos, c) == Filled(moved, c) + v[..|v| - moved]
  {
  }

  lemma FilledBelow(t: seq<Node>, fill: Bvec, low: Bvec, env: Env)
    requires WellFormed(t) && InTable(t, fill) && InTable(t, low)
    ensures InTable(t, fill + low)
    ensures Val(t, fill + low, env) == Pow2(|fill|) * Val(t, low, env) + Val(t, fill, env)
  {
    ValConcat(t, fill, low, env);
  }

  /** Down by any distance: the quotient, and the fill bits above it. */
  lemma ShiftDownIs(t: seq<Node>, v: Bvec, pos: nat, c: nat, env: Env)
    requires WellFormed(t) && InTable(t, v) && c < |t|
    ensures InTable(t, ShiftedDown(v, pos, c))
    ensures var moved := if pos < |v| then pos else |v|;
      Val(t, ShiftedDown(v, pos, c), env) ==
        Val(t, v, env) / Pow2(moved) + Pow2(|v| - moved) * if Eval(t, c, env) then Pow2(moved) - 1 else 0
  {
    hide Val, Pow2, Filled, ShiftedDown, WellFormed;
    var moved := if pos < |v| then pos else |v|;
    FilledVal(t, moved, c, env);
    HighVal(t, v, moved, env);
    ShiftedDownParts(v, pos, c);
    ValConcat(t, v[moved..], Filled(moved, c), env);
  }

  lemma HighVal(t: seq<Node>, v: Bvec, m: nat, env: Env)
    requires WellFormed(t) && InTable(t, v) && m <= |v|
    ensures InTable(t, v[m..]) && |v[m..]| == |v| - m && Val(t, v[m..], env) == Val(t, v, env) / Pow2(m)
  {
    ValSplit(t, v, m, env);
  }

  lemma ShiftedDownParts(v: Bvec, pos: nat, c: nat)
    ensures var moved := if pos < |v| then pos else |v|; ShiftedDown(v, pos, c) == v[moved..] + Filled(moved, c)
  {
  }

  /** One place down is halving. */
  lemma ShiftDownOne(t: seq<Node>, v: Bvec, env: Env)
    requires WellFormed(t) && InTable(t, v) && v != []
    ensures InTable(t, ShiftedDown(v, 1, 0))
    ensures Val(t, ShiftedDown(v, 1, 0), env) == Val(t, v, env) / 2
  {
    ValSplit(t, v, 1, env);
    ZerosVal(t, 1, env);
    ValConcat(t, v[1..], Zeros(1), env);
    assert ShiftedDown(v, 1, 0) == v[1..] + Zeros(1);
  }

  lemma TopBit(t: seq<Node>, v: Bvec, env: Env)
    requires WellFormed(t) && InTable(t, v) && v != []
    ensures Bit(Eval(t, v[|v| - 1], env)) == Val(t, v, env) / Pow2(|v| - 1)
  {
    var last := |v| - 1;
    ValSplit(t, v, last, env);
    assert v[last..] == [v[last]];
    ValCons(t, v[last], [], env);
    assert [v[last]] + [] == [v[last]];
  }

  /** The width of a machine word. */
  const WORD: nat := 64
  const TWO_64: nat := 0x1_0000_0000_0000_0000

  lemma WordSize() returns (w: nat)
    ensures w == WORD && Pow2(w) == TWO_64
  {
    w := WORD;
    assert Pow2(8) == 256;
    hide Pow2;
    Pow2Add(8, 8);
    Pow2Add(16, 16);
    Pow2Add(32, 32);
  }

  /** The n low bits of a constant. */
  function Constant(n: nat, val: nat): (v: Bvec)
    ensures |v| == n
    ensures forall i :: 0 <= i < n ==> v[i] < 2
  {
    if n == 0 then [] else [val % 2] + Constant(n - 1, val / 2)
  }

  lemma ModDouble(x: nat, p: nat)
    requires p > 0
    ensures x % (2 * p) == 2 * ((x / 2) % p) + x % 2
  {
    var h := x / 2;
    var q, r := h / p, h % p;
    assert h == p * q + r;
    assert x == (2 * r + x % 2) + (2 * p) * q by { Associate(2, p, q); }
    DivMod(x, 2 * r + x % 2, q, 2 * p);
  }

  /** A constant vector is its value modulo 2^n under every assignment. */
  lemma {:induction false} ConstantVal(t: seq<Node>, n: nat, val: nat, env: Env)
    requires WellFormed(t)
    ensures InTable(t, Constant(n, val))
    ensures Val(t, Constant(n, val), env) == val % Pow2(n)
    decreases n
  {
    if n > 0 {
      ConstantVal(t, n - 1, val / 2, env);
      Constants(t);
      ValCons(t, val % 2, Constant(n - 1, val / 2), env);
      ModDouble(val, Pow2(n - 1));
    }
  }

  lemma {:induction false} ConstantZero(n: nat)
    ensures Constant(n, 0) == Zeros(n)
  {
    if n > 0 {
      ConstantZero(n - 1);
      assert Zeros(n) == [0] + Zeros(n - 1);
    }
  }

  /** The bits of a number that is put together from two halves. */
  lemma {:induction false} ConstantConcat(a: nat, b: nat, low: nat, high: nat)
    requires low < Pow2(a)
    ensures Constant(a + b, low + Pow2(a) * high) == Constant(a, low) + Constant(b, high)
    decreases a
  {
    var x := low + Pow2(a) * high;
    if a > 0 {
      Associate(2, Pow2(a - 1), high);
      assert x == low + 2 * (Pow2(a - 1) * high);
      assert x % 2 == low % 2 && x / 2 == low / 2 + Pow2(a - 1) * high;
      ConstantConcat(a - 1, b, low / 2, high);
    } else {
      assert Constant(a, low) == [] && x == high;
    }
  }

  lemma {:induction false} ConstantPrefix(n: nat, m: nat, val: nat)
    ensures Constant(n + m, val)[..n] == Constant(n, val)
  {
    if n > 0 {
      ConstantPrefix(n - 1, m, val / 2);
      assert Constant(n + m, val)[..n] == [val % 2] + Constant(n + m - 1, val / 2)[..n - 1];
    }
  }

  lemma TwoWords(n: nat, low: nat, high: nat)
    requires low < TWO_64
    ensures n <= WORD ==> Constant(n, low + TWO_64 * high) == Constant(n, low)
    ensures n > WORD ==> Constant(n, low + TWO_64 * high) == Constant(WORD, low) + Constant(n - WORD, high)
  {
    hide Pow2, Constant;
    var w := WordSize();
    if n > w {
      ConstantConcat(w, n - w, low, high);
    } else {
      NoBits(high);
      ConstantConcat(w, 0, low, high);
      ConstantPrefix(n, w - n, low);
      ConstantPrefix(n, w - n, low + Pow2(w) * high);
    }
  }

  lemma NoBits(val: nat)
    ensures Constant(0, val) == []
  {
  }

  /** The value of the variables offset, offset + 1, ... as one number. */
  function BlockValue(env: Env, offset: nat, n: nat): nat {
    if n == 0 then 0
    else BlockValue(env, offset, n - 1) + Weigh(offset + n - 1 in env, Pow2(n - 1))
  }

  lemma {:induction false} BlockBound(env: Env, offset: nat, n: nat)
    ensures BlockValue(env, offset, n) < Pow2(n)
  {
    if n > 0 { BlockBound(env, offset, n - 1); }
  }

  /** Adding multiples of the modulus changes nothing. */
  lemma ModMultiple(y: nat, q: nat, p: nat)
    requires p > 0
    ensures (y + p * q) % p == y % p
  {
    var d := y / p;
    Distribute(p, d, q);
    assert y == y % p + p * d;
    DivMod(y + p * q, y % p, d + q, p);
  }

  lemma ModProduct(x: nat, h: nat, p: nat)
    requires p > 0
    ensures ((x % p) * h) % p == (x * h) % p
  {
    var d, r := x / p, x % p;
    assert x * h == (r + p * d) * h == r * h + (p * d) * h;
    Associate(p, d, h);
    ModMultiple(r * h, d * h, p);
  }

  lemma ModSum(x: nat, y: nat, p: nat)
    requires p > 0
    ensures (x + y % p) % p == (x + y) % p
  {
    var d, r := y / p, y % p;
    assert y == r + p * d;
    ModMultiple(x + r, d, p);
  }

  lemma ProductBound(a: nat, b: nat, p: nat, q: nat)
    requires a < p && b < q
    ensures a * b < p * q
  {
    assert a * b <= a * q <= p * q;
    assert a * q < p * q;
  }

  /** After n rows of the multiplication: the sum of the rows, and the next row. */
  ghost predicate Product(t: seq<Node>, left: Bvec, right: Bvec, n: nat, acc: Bvec, shift: Bvec)
    requires WellFormed(t) && n <= |right|
  {
    && InTable(t, left) && InTable(t, right) && InTable(t, acc) && InTable(t, shift)
    && |acc| == |shift| == |left| + |right|
    && forall env ::
      && Val(t, acc, env) == Val(t, left, env) * Val(t, right[..n], env)
      && Val(t, shift, env) == Pow2(n) * Val(t, left, env)
  }

  lemma ExtendProduct(t: seq<Node>, t': seq<Node>, left: Bvec, right: Bvec, n: nat, acc: Bvec, shift: Bvec)
    requires WellFormed(t) && WellFormed(t') && t <= t' && n <= |right| && Product(t, left, right, n, acc, shift)
    ensures Product(t', left, right, n, acc, shift)
  {
    ExtendVals(t, t', left);
    ExtendVals(t, t', right[..n]);
    ExtendVals(t, t', acc);
    ExtendVals(t, t', shift);
  }

  lemma ProductStart(t: seq<Node>, left: Bvec, right: Bvec)
    requires WellFormed(t) && InTable(t, left) && InTable(t, right) && right != []
    ensures Product(t, left, right, 0, Zeros(|left| + |right|), Coerced(left, |left| + |right|))
  {
    forall env
      ensures InTable(t, Zeros(|left| + |right|)) && InTable(t, Coerced(left, |left| + |right|))
      ensures Val(t, Zeros(|left| + |right|), env) == 0
      ensures Val(t, Coerced(left, |left| + |right|), env) == Val(t, left, env)
    {
      ZerosVal(t, |left| + |right|, env);
      CoercedVal(t, left, |left| + |right|, env);
    }
  }

  /** The row that is added, if its bit of the multiplier is set, still fits. */
  lemma RowFits(l: nat, r: nat, n: nat, a: nat, m: nat)
    requires l < Pow2(a) && r < Pow2(n) && a + n + 1 <= m
    ensures l * r + Pow2(n) * l == l * (r + Pow2(n)) < Pow2(m)
    ensures Pow2(n) * l < Pow2(m - 1) && 2 * (Pow2(n) * l) == Pow2(n + 1) * l
  {
    ProductBound(l, r + Pow2(n), Pow2(a), Pow2(n + 1));
    Pow2Add(a, n + 1);
    Pow2Monotone(a + n + 1, m);
    ProductBound(l, Pow2(n), Pow2(a), Pow2(n) + 1);
    RowBound(l, n, a, m);
    Distribute(l, r, Pow2(n));
    Associate(2, Pow2(n), l);
  }

  lemma RowBound(l: nat, n: nat, a: nat, m: nat)
    requires l < Pow2(a) && a + n + 1 <= m
    ensures Pow2(n) * l < Pow2(m - 1)
  {
    Pow2Add(n, a);
    Pow2Monotone(a + n, m - 1);
    assert Pow2(n) * l < Pow2(n) * Pow2(a);
  }

  /** The accumulator takes the row when the bit is set. */
  lemma AccumulatorStep(t: seq<Node>, left: Bvec, right: Bvec, n: nat, acc: Bvec, shift: Bvec,
                        added: Bvec, acc': Bvec, env: Env)
    requires WellFormed(t) && n < |right| && Product(t, left, right, n, acc, shift)
    requires IsAddition(t, acc, shift, added) && IsChoice(t, right[n], added, acc, acc')
    ensures Val(t, acc', env) == Val(t, left, env) * Val(t, right[..n + 1], env)
  {
    hide IsAddition, Mod, WellFormed, Val, Eval, Pow2, Product, IsChoice;
    ProductAt(t, left, right, n, acc, shift, env);
    var l, r := Val(t, left, env), Val(t, right[..n], env);
    AdditionAt(t, acc, shift, added, env);
    var total := Val(t, added, env);
    var bit := Eval(t, right[n], env);
    ChoiceVal(t, right[n], added, acc, acc', env);
    ValPrefix(t, right, n, env);
    ValBound(t, left, env);
    ValBound(t, right[..n], env);
    var r' := Val(t, right[..n + 1], env);
    if bit {
      RowSum(l, r, n, |left|, |acc|, l * r, Pow2(n) * l, total);
      assert r' == r + Pow2(n);
    } else {
      assert r' == r;
    }
  }

  lemma ProductAt(t: seq<Node>, left: Bvec, right: Bvec, n: nat, acc: Bvec, shift: Bvec, env: Env)
    requires WellFormed(t) && n <= |right| && Product(t, left, right, n, acc, shift)
    ensures InTable(t, left) && InTable(t, right) && InTable(t, acc) && InTable(t, shift)
    ensures |acc| == |shift| == |left| + |right|
    ensures Val(t, acc, env) == Val(t, left, env) * Val(t, right[..n], env)
    ensures Val(t, shift, env) == Pow2(n) * Val(t, left, env)
  {
  }

  lemma AdditionAt(t: seq<Node>, l: Bvec, r: Bvec, res: Bvec, env: Env)
    requires WellFormed(t) && IsAddition(t, l, r, res)
    ensures InTable(t, l) && InTable(t, r) && InTable(t, res) && |res| == |l| == |r|
    ensures Val(t, res, env) == Mod(Val(t, l, env) + Val(t, r, env), Pow2(|l|))
  {
    hide WellFormed, Val, Eval, Pow2, Mod;
  }

  lemma RowSum(l: nat, r: nat, n: nat, a: nat, m: nat, x: nat, y: nat, total: nat)
    requires l < Pow2(a) && r < Pow2(n) && a + n + 1 <= m
    requires x == l * r && y == Pow2(n) * l && total == Mod(x + y, Pow2(m))
    ensures total == l * (r + Pow2(n))
  {
    RowFits(l, r, n, a, m);
    SmallMod(x + y, Pow2(m));
  }

  lemma ShiftStep(t: seq<Node>, left: Bvec, right: Bvec, n: nat, acc: Bvec, shift: Bvec, env: Env)
    requires WellFormed(t) && n < |right| && Product(t, left, right, n, acc, shift)
    ensures InTable(t, ShiftedUp(shift, 1, 0))
    ensures Val(t, ShiftedUp(shift, 1, 0), env) == Pow2(n + 1) * Val(t, left, env)
  {
    var l := Val(t, left, env);
    assert Val(t, shift, env) == Pow2(n) * l;
    ValBound(t, left, env);
    RowFits(l, 0, n, |left|, |acc|);
    SmallMod(Pow2(n) * l, Pow2(|acc| - 1));
    FalseBit(t, env);
    ShiftUpOne(t, shift, 0, env);
  }

  lemma ProductStep(t: seq<Node>, left: Bvec, right: Bvec, n: nat, acc: Bvec, shift: Bvec, added: Bvec, acc': Bvec)
    requires WellFormed(t) && n < |right| && Product(t, left, right, n, acc, shift)
    requires IsAddition(t, acc, shift, added) && IsChoice(t, right[n], added, acc, acc')
    ensures Product(t, left, right, n + 1, acc', ShiftedUp(shift, 1, 0))
  {
    forall env
      ensures InTable(t, ShiftedUp(shift, 1, 0))
      ensures Val(t, acc', env) == Val(t, left, env) * Val(t, right[..n + 1], env)
      ensures Val(t, ShiftedUp(shift, 1, 0), env) == Pow2(n + 1) * Val(t, left, env)
    {
      AccumulatorStep(t, left, right, n, acc, shift, added, acc', env);
      ShiftStep(t, left, right, n, acc, shift, env);
    }
  }

  lemma FalseBit(t: seq<Node>, env: Env)
    requires WellFormed(t)
    ensures 0 < |t| && Bit(Eval(t, 0, env)) == 0
  {
  }

  lemma QuotientBound(x: nat, p: nat)
    requires p > 0
    ensures x / p <= x
  {
    var q, r := x / p, x % p;
    assert x == p * q + r;
    AtLeast(p, q);
  }

  lemma AtLeast(p: nat, q: nat)
    requires p > 0
    ensures q <= p * q
  {
  }
}
