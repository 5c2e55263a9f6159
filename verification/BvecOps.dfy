/** Arithmetic on vectors of nodes: each circuit computes the arithmetic it is named after, under
    every assignment at once. */
module BvecOps {
  import opened Table
  import opened Meaning
  import opened Powers
  import opened BitVectors
  import opened BitSlices
  import opened Substitution
  import opened Kernel
  import ApplyOps
  import IteOps

  /** bdd_apply on nodes of the table. */
  method Gate(k: Kernel, l: nat, r: nat, op: int) returns (res: nat)
    requires k.Valid() && l < |k.nodes| && r < |k.nodes| && IsOp(op)
    modifies k
    ensures k.Valid() && k.Kept()
    ensures res < |k.nodes| && IsApply(k.nodes, op, l, r, res)
  {
    var err;
    res, err := ApplyOps.Apply(k, l, r, op);
  }

  /** One bit of a sum or of a difference. */
  method Parity(k: Kernel, l: nat, r: nat, c: nat) returns (x: nat, s: nat)
    requires k.Valid() && l < |k.nodes| && r < |k.nodes| && c < |k.nodes|
    modifies k
    ensures k.Valid() && k.Kept()
    ensures x < |k.nodes| && s < |k.nodes| && IsApply(k.nodes, XOR, l, r, x) && IsApply(k.nodes, XOR, x, c, s)
  {
    hide k.Valid, WellFormed, Eval, IsApply;
    x := Gate(k, l, r, XOR);
    ghost var t := k.nodes;
    s := Gate(k, x, c, XOR);
    ExtendApply(t, k.nodes, XOR, l, r, x);
  }

  method Sum(k: Kernel, l: nat, r: nat, c: nat) returns (s: nat, carry: nat)
    requires k.Valid() && l < |k.nodes| && r < |k.nodes| && c < |k.nodes|
    modifies k
    ensures k.Valid() && k.Kept()
    ensures s < |k.nodes| && carry < |k.nodes| && IsSum(k.nodes, l, r, c, s, carry)
  {
    hide k.Valid, WellFormed, Eval, IsApply, IsSum;
    var x;
    x, s := Parity(k, l, r, c);
    ghost var t1 := k.nodes;
    var o := Gate(k, l, r, OR);
    ghost var t3 := k.nodes;
    var m := Gate(k, c, o, AND);
    ghost var t4 := k.nodes;
    var a := Gate(k, l, r, AND);
    ghost var t5 := k.nodes;
    carry := Gate(k, a, m, OR);
    ghost var t := k.nodes;
    ExtendApply(t1, t, XOR, l, r, x);
    ExtendApply(t1, t, XOR, x, c, s);
    ExtendApply(t3, t, OR, l, r, o);
    ExtendApply(t4, t, AND, c, o, m);
    ExtendApply(t5, t, AND, l, r, a);
    AdderGates(t, l, r, c, x, s, o, m, a, carry);
  }

  method Difference(k: Kernel, l: nat, r: nat, c: nat) returns (s: nat, borrow: nat)
    requires k.Valid() && l < |k.nodes| && r < |k.nodes| && c < |k.nodes|
    modifies k
    ensures k.Valid() && k.Kept()
    ensures s < |k.nodes| && borrow < |k.nodes| && IsDifference(k.nodes, l, r, c, s, borrow)
  {
    hide k.Valid, WellFormed, Eval, IsApply, IsDifference;
    var x;
    x, s := Parity(k, l, r, c);
    ghost var t1 := k.nodes;
    var o := Gate(k, r, c, OR);
    ghost var t3 := k.nodes;
    var m := Gate(k, l, o, LESS);
    ghost var t4 := k.nodes;
    var a := Gate(k, l, r, AND);
    ghost var t5 := k.nodes;
    var b := Gate(k, a, c, AND);
    ghost var t6 := k.nodes;
    borrow := Gate(k, b, m, OR);
    ghost var t := k.nodes;
    ExtendApply(t1, t, XOR, l, r, x);
    ExtendApply(t1, t, XOR, x, c, s);
    ExtendApply(t3, t, OR, r, c, o);
    ExtendApply(t4, t, LESS, l, o, m);
    ExtendApply(t5, t, AND, l, r, a);
    ExtendApply(t6, t, AND, a, c, b);
    SubtractorGates(t, l, r, c, x, s, o, m, a, b, borrow);
  }

  /** What the checks at the head of a binary operation answer: an empty operand gives an empty vector
      and unequal widths are an error. */
  function WidthError(l: Bvec, r: Bvec): int {
    if |l| != 0 && |r| != 0 && |l| != |r| then BVEC_SIZE else 0
  }

  /** bvec_add: addition modulo 2^n. */
  method Add(k: Kernel, l: Bvec, r: Bvec) returns (res: Bvec, err: int)
    requires k.Valid() && InTable(k.nodes, l) && InTable(k.nodes, r)
    modifies k
    ensures k.Valid() && k.Kept()
    ensures err == WidthError(l, r)
    ensures InTable(k.nodes, res)
    ensures if |l| == |r| then IsAddition(k.nodes, l, r, res) else res == []
  {
    hide k.Valid, WellFormed, Eval, IsSum, Adds, Val, Pow2;
    NothingYet(k.nodes);
    if |l| == 0 || |r| == 0 {
      if |l| == |r| { AddsWraps(k.nodes, l, r, [], 0); }
      return [], 0;
    }
    if |l| != |r| {
      return [], BVEC_SIZE;
    }
    res, err := [], 0;
    var c: nat := 0;
    Constants(k.nodes);
    for n := 0 to |l|
      invariant k.Valid() && k.Kept() && |res| == n && c < |k.nodes|
      invariant InTable(k.nodes, l) && InTable(k.nodes, r)
      invariant Adds(k.nodes, l[..n], r[..n], res, c)
    {
      ghost var t := k.nodes;
      var s, carry := Sum(k, l[n], r[n], c);
      AddsStep(t, k.nodes, l, r, n, res, c, s, carry);
      res, c := res + [s], carry;
    }
    AddsWraps(k.nodes, l, r, res, c);
  }

  /** bvec_sub: subtraction modulo 2^n. */
  method Sub(k: Kernel, l: Bvec, r: Bvec) returns (res: Bvec, err: int)
    requires k.Valid() && InTable(k.nodes, l) && InTable(k.nodes, r)
    modifies k
    ensures k.Valid() && k.Kept()
    ensures err == WidthError(l, r)
    ensures InTable(k.nodes, res)
    ensures if |l| == |r| then IsSubtraction(k.nodes, l, r, res) else res == []
  {
    hide k.Valid, WellFormed, Eval, IsDifference, Subtracts, Val, Pow2;
    NothingYet(k.nodes);
    if |l| == 0 || |r| == 0 {
      if |l| == |r| { SubtractsWraps(k.nodes, l, r, [], 0); }
      return [], 0;
    }
    if |l| != |r| {
      return [], BVEC_SIZE;
    }
    res, err := [], 0;
    var c: nat := 0;
    Constants(k.nodes);
    for n := 0 to |l|
      invariant k.Valid() && k.Kept() && |res| == n && c < |k.nodes|
      invariant InTable(k.nodes, l) && InTable(k.nodes, r)
      invariant Subtracts(k.nodes, l[..n], r[..n], res, c)
    {
      ghost var t := k.nodes;
      var s, borrow := Difference(k, l[n], r[n], c);
      SubtractsStep(t, k.nodes, l, r, n, res, c, s, borrow);
      res, c := res + [s], borrow;
    }
    SubtractsWraps(k.nodes, l, r, res, c);
  }

  method Decide(k: Kernel, l: nat, r: nat, p: nat) returns (p': nat)
    requires k.Valid() && l < |k.nodes| && r < |k.nodes| && p < |k.nodes|
    modifies k
    ensures k.Valid() && k.Kept()
    ensures p' < |k.nodes| && IsDecision(k.nodes, l, r, p, p')
  {
    hide k.Valid, WellFormed, Eval, IsApply, IsDecision;
    var x := Gate(k, l, r, LESS);
    ghost var t1 := k.nodes;
    var e := Gate(k, l, r, BIIMP);
    ghost var t2 := k.nodes;
    var m := Gate(k, e, p, AND);
    ghost var t3 := k.nodes;
    p' := Gate(k, x, m, OR);
    ghost var t := k.nodes;
    ExtendApply(t1, t, LESS, l, r, x);
    ExtendApply(t2, t, BIIMP, l, r, e);
    ExtendApply(t3, t, AND, e, p, m);
    DecisionGates(t, l, r, p, x, e, m, p');
  }

  method Match(k: Kernel, l: nat, r: nat, p: nat) returns (p': nat)
    requires k.Valid() && l < |k.nodes| && r < |k.nodes| && p < |k.nodes|
    modifies k
    ensures k.Valid() && k.Kept()
    ensures p' < |k.nodes| && IsMatch(k.nodes, l, r, p, p')
  {
    hide k.Valid, WellFormed, Eval, IsApply, IsMatch;
    var x := Gate(k, l, r, BIIMP);
    ghost var t1 := k.nodes;
    p' := Gate(k, x, p, AND);
    ExtendApply(t1, k.nodes, BIIMP, l, r, x);
    MatchGates(k.nodes, l, r, p, x, p');
  }

  /** bvec_lth, bvec_lte and bvec_equ, which differ in the initial answer and in the step. */
  method Compare(k: Kernel, o: Order, l: Bvec, r: Bvec) returns (p: nat, err: int)
    requires k.Valid() && InTable(k.nodes, l) && InTable(k.nodes, r)
    modifies k
    ensures k.Valid() && k.Kept()
    ensures err == WidthError(l, r)
    ensures p < |k.nodes|
    ensures |l| == 0 || |r| == 0 ==> p == 0
    ensures |l| == |r| != 0 ==> Decides(k.nodes, o, l, r, p)
    ensures err != 0 ==> p == if o == Below then 0 else 1
  {
    hide k.Valid, WellFormed, Eval, IsDecision, IsMatch, Decides, Val;
    Constants(k.nodes);
    NothingCompared(k.nodes);
    if |l| == 0 || |r| == 0 {
      return 0, 0;
    }
    p, err := if o == Below then 0 else 1, 0;
    if |l| != |r| {
      return p, BVEC_SIZE;
    }
    for n := 0 to |l|
      invariant k.Valid() && k.Kept() && p < |k.nodes|
      invariant InTable(k.nodes, l) && InTable(k.nodes, r)
      invariant Decides(k.nodes, o, l[..n], r[..n], p)
    {
      ghost var t := k.nodes;
      var p';
      if o == Equal {
        p' := Match(k, l[n], r[n], p);
      } else {
        p' := Decide(k, l[n], r[n], p);
      }
      DecidesStep(t, k.nodes, o, l, r, n, p, p');
      p := p';
    }
    assert l[..|l|] == l && r[..|l|] == r;
  }

  /** bvec_build, bvec_true and bvec_false. */
  method Build(bitnum: nat, isTrue: bool) returns (v: Bvec)
    ensures v == seq(bitnum, _ => if isTrue then 1 else 0)
    ensures !isTrue ==> v == Zeros(bitnum)
  {
    v := [];
    for n := 0 to bitnum
      invariant v == seq(n, _ => if isTrue then 1 else 0)
    {
      v := v + [if isTrue then 1 else 0];
    }
  }

  /** Fills the positions from start to end with the low bits of value. */
  method PutBits(v: Bvec, start: nat, end: nat, value: nat) returns (res: Bvec)
    requires start <= end <= |v|
    ensures res == v[..start] + Constant(end - start, value) + v[end..]
  {
    res := v;
    var val := value;
    for n := start to end
      invariant |res| == |v| && res[..start] == v[..start] && res[end..] == v[end..]
      invariant res[start..n] + Constant(end - n, val) == Constant(end - start, value)
    {
      ghost var before := res[start..n];
      res := res[n := val % 2];
      assert res[start..n + 1] == before + [val % 2];
      val := val / 2;
    }
    assert res == res[..start] + res[start..end] + res[end..];
  }

  /** bvec_con. */
  method Con(bitnum: nat, value: nat) returns (v: Bvec)
    ensures v == Constant(bitnum, value)
  {
    v := Build(bitnum, false);
    ConstantZero(bitnum);
    if value != 0 {
      v := PutBits(v, 0, bitnum, value);
    }
  }

  /** bvec_con128: the value is given in two halves of 64 bits. */
  method Con128(bitnum: nat, low64: nat, high64: nat) returns (v: Bvec)
    requires low64 < TWO_64
    ensures v == Constant(bitnum, low64 + TWO_64 * high64)
  {
    hide Constant;
    v := Build(bitnum, false);
    var m := if bitnum < WORD then bitnum else WORD;
    var n: nat := WORD;
    if low64 != 0 {
      v := PutBits(v, 0, m, low64);
      n := m;
    }
    if high64 != 0 && n < bitnum {
      v := PutBits(v, n, bitnum, high64);
    }
    ConstantZero(m);
    ConstantZero(bitnum - m);
    TwoWords(bitnum, low64, high64);
  }

  /** bvec_var: the variables offset, offset + step, ... */
  method Var(k: Kernel, bitnum: nat, offset: int, step: int) returns (v: Bvec, err: int)
    requires k.Valid()
    ensures err == 0 <==> forall n :: 0 <= n < bitnum ==> 0 <= offset + n * step < k.varnum
    ensures err == 0 || err == BDD_VAR
    ensures err == 0 ==> |v| == bitnum && InTable(k.nodes, v)
    ensures err == 0 ==> forall n :: 0 <= n < bitnum ==> IsVar(k.nodes, offset + n * step, v[n])
  {
    hide k.Valid, WellFormed;
    v, err := [], 0;
    for n := 0 to bitnum
      invariant |v| == n && err == 0
      invariant forall i :: 0 <= i < n ==> 0 <= offset + i * step < k.varnum && IsVar(k.nodes, offset + i * step, v[i])
    {
      var b;
      b, err := k.IthVar(offset + n * step);
      if err != 0 {
        return;
      }
      v := v + [b];
    }
  }

  /** bvec_coerce. */
  method Coerce(bitnum: nat, v: Bvec) returns (res: Bvec)
    ensures res == Coerced(v, bitnum)
  {
    res := Build(bitnum, false);
    var minnum := if bitnum < |v| then bitnum else |v|;
    for n := 0 to minnum
      invariant |res| == bitnum
      invariant res == v[..n] + Zeros(bitnum - n)
    {
      res := res[n := v[n]];
    }
  }

  /** bvec_shlfixed. */
  method ShlFixed(e: Bvec, pos: int, c: nat) returns (res: Bvec, err: int)
    ensures err == if pos < 0 then BVEC_SHIFT else 0
    ensures err != 0 ==> res == []
    ensures err == 0 ==> pos >= 0 && res == ShiftedUp(e, pos, c)
  {
    if pos < 0 {
      return [], BVEC_SHIFT;
    }
    if |e| == 0 {
      return [], 0;
    }
    err := 0;
    var minnum := if |e| < pos then |e| else pos;
    res := Build(|e|, false);
    for n := 0 to minnum
      invariant |res| == |e| && forall i :: 0 <= i < n ==> res[i] == c
    {
      res := res[n := c];
    }
    for n := minnum to |e|
      invariant |res| == |e|
      invariant forall i :: 0 <= i < n ==> res[i] == if i < minnum then c else e[i - pos]
    {
      res := res[n := e[n - pos]];
    }
  }

  /** bvec_shrfixed. */
  method ShrFixed(e: Bvec, pos: int, c: nat) returns (res: Bvec, err: int)
    ensures err == if pos < 0 then BVEC_SHIFT else 0
    ensures err != 0 ==> res == []
    ensures err == 0 ==> pos >= 0 && res == ShiftedDown(e, pos, c)
  {
    if pos < 0 {
      return [], BVEC_SHIFT;
    }
    if |e| == 0 {
      return [], 0;
    }
    err := 0;
    var maxnum := if |e| - pos > 0 then |e| - pos else 0;
    res := Build(|e|, false);
    for n := maxnum to |e|
      invariant |res| == |e| && forall i :: maxnum <= i < n ==> res[i] == c
    {
      res := res[n := c];
    }
    for n := 0 to maxnum
      invariant |res| == |e|
      invariant forall i :: maxnum <= i < |e| ==> res[i] == c
      invariant forall i :: 0 <= i < n ==> res[i] == e[i + pos]
    {
      res := res[n := e[n + pos]];
    }
  }

  /** A vector in an array of its own, to be changed in place. */
  method Buffer(v: Bvec) returns (a: array<nat>)
    ensures fresh(a) && a[..] == v
  {
    a := new nat[|v|];
    for n := 0 to |v|
      invariant a[..n] == v[..n]
    {
      a[n] := v[n];
    }
  }

  method ShiftUpInPlace(a: array<nat>)
    requires a.Length > 0
    modifies a
    ensures a[..] == ShiftedUp(old(a[..]), 1, 0)
  {
    var m := a.Length - 1;
    while m >= 1
      invariant 0 <= m < a.Length
      invariant forall i :: 0 <= i <= m ==> a[i] == old(a[i])
      invariant forall i :: m < i < a.Length ==> a[i] == old(a[i - 1])
    {
      a[m] := a[m - 1];
      m := m - 1;
    }
    a[0] := 0;
  }

  method ShiftDownInPlace(a: array<nat>)
    requires a.Length > 0
    modifies a
    ensures a[..] == ShiftedDown(old(a[..]), 1, 0)
  {
    for m := 0 to a.Length - 1
      invariant forall i :: 0 <= i < m ==> a[i] == old(a[i + 1])
      invariant forall i :: m <= i < a.Length ==> a[i] == old(a[i])
    {
      a[m] := a[m + 1];
    }
    a[a.Length - 1] := 0;
  }

  /** Each bit becomes the one of b where c holds. */
  method SelectInPlace(k: Kernel, c: nat, b: Bvec, a: array<nat>)
    requires k.Valid() && c < |k.nodes| && InTable(k.nodes, b) && InTable(k.nodes, a[..]) && |b| == a.Length
    modifies k, a
    ensures k.Valid() && k.Kept()
    ensures IsChoice(k.nodes, c, b, old(a[..]), a[..])
  {
    hide k.Valid, WellFormed, Eval, IsIte;
    ghost var was := a[..];
    for m := 0 to a.Length
      invariant k.Valid() && k.Kept()
      invariant InTable(k.nodes, a[..])
      invariant forall i :: 0 <= i < m ==> IsIte(k.nodes, c, b[i], was[i], a[i])
      invariant forall i :: m <= i < a.Length ==> a[i] == was[i]
    {
      ghost var t := k.nodes;
      ghost var now := a[..];
      var x, err := IteOps.Ite(k, c, b[m], a[m]);
      IteInTable(k.nodes, c, b[m], now[m], x);
      forall i | 0 <= i < m ensures IsIte(k.nodes, c, b[i], was[i], now[i]) {
        ExtendIte(t, k.nodes, c, b[i], was[i], now[i]);
      }
      a[m] := x;
    }
  }

  lemma IteInTable(t: seq<Node>, f: nat, g: nat, h: nat, res: nat)
    requires WellFormed(t) && IsIte(t, f, g, h, res)
    ensures res < |t|
  {
  }
}
