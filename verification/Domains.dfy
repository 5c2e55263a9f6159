/** Value ranges of the packet fields, as nodes over a block of variables. */
module Domains {
  import opened Table
  import opened Meaning
  import opened Powers
  import opened Substitution
  import opened BitVectors
  import opened BitSlices
  import opened Kernel
  import opened BvecOps

  /** A range of an unsigned type of at most 64 bits, or of the 128-bit type (wide). */
  datatype Range = Range(nbits: nat, lbound: nat, ubound: nat, wide: bool) {
    predicate Valid() {
      nbits > 0 && lbound <= ubound < Pow2(nbits)
    }
  }

  function Full(nbits: nat, wide: bool): Range {
    Range(nbits, 0, Pow2(nbits) - 1, wide)
  }

  /** The vector of a bound: one word, or the two halves of a wide number. */
  method Bound(nbits: nat, value: nat, wide: bool) returns (v: Bvec)
    ensures v == Constant(nbits, value)
  {
    if wide {
      v := Con128(nbits, value % TWO_64, value / TWO_64);
    } else {
      v := Con(nbits, value);
    }
  }

  lemma ConstantsInTable(t: seq<Node>, n: nat, value: nat)
    requires WellFormed(t)
    ensures InTable(t, Constant(n, value))
  {
    Constants(t);
  }

  /** Range::operator==: the comparison of two bounds is the constant true. */
  method SameBound(k: Kernel, nbits: nat, x: nat, y: nat, wide: bool) returns (yes: bool)
    requires k.Valid() && nbits > 0 && x < Pow2(nbits) && y < Pow2(nbits)
    modifies k
    ensures k.Valid() && k.Kept()
    ensures yes <==> x == y
  {
    hide k.Valid, WellFormed, Eval, Val, Constant, Decides, Pow2;
    var l := Bound(nbits, x, wide);
    var r := Bound(nbits, y, wide);
    ConstantsInTable(k.nodes, nbits, x);
    ConstantsInTable(k.nodes, nbits, y);
    var p, err := Compare(k, Equal, l, r);
    ConstantsCompared(k.nodes, nbits, x, y, p);
    yes := p == 1;
  }

  lemma ConstantsCompared(t: seq<Node>, nbits: nat, x: nat, y: nat, p: nat)
    requires WellFormed(t) && x < Pow2(nbits) && y < Pow2(nbits)
    requires Decides(t, Equal, Constant(nbits, x), Constant(nbits, y), p)
    ensures p == 1 <==> x == y
  {
    Constants(t);
    SmallMod(x, Pow2(nbits));
    SmallMod(y, Pow2(nbits));
    forall env ensures Eval(t, p, env) <==> x == y {
      ConstantVal(t, nbits, x, env);
      ConstantVal(t, nbits, y, env);
    }
    assert Eval(t, p, {}) <==> x == y;
    if x == y {
      assert Same(t, p, 1);
      Canonical(t, p, 1);
    }
  }

  /** The variables offset, offset + 1, ... in the order of their bits. */
  ghost predicate IsBlock(t: seq<Node>, offset: nat, v: Bvec)
    requires WellFormed(t)
  {
    forall i :: 0 <= i < |v| ==> IsVar(t, offset + i, v[i])
  }

  lemma {:induction false} BlockVal(t: seq<Node>, offset: nat, v: Bvec, env: Env)
    requires WellFormed(t) && IsBlock(t, offset, v)
    ensures InTable(t, v) && Val(t, v, env) == BlockValue(env, offset, |v|)
  {
    if v != [] {
      var last := |v| - 1;
      assert IsVar(t, offset + last, v[last]);
      LevelBound(t, v[last]);
      VarMeaning(t, offset + last, v[last], env);
      BlockVal(t, offset, v[..last], env);
    }
  }

  /** A range of a domain, with the answer to whether it is the whole domain. */
  datatype Mvalue = Mvalue(range: Range, all: bool)

  ghost predicate ValidMvalue(m: Mvalue) {
    m.range.Valid() && (m.all <==> m.range == Full(m.range.nbits, m.range.wide))
  }

  /** The constructor: is the range the one of its domain? */
  method NewMvalue(k: Kernel, range: Range) returns (m: Mvalue)
    requires k.Valid() && range.Valid()
    modifies k
    ensures k.Valid() && k.Kept()
    ensures m.range == range && ValidMvalue(m)
  {
    var domain := Full(range.nbits, range.wide);
    var lower := SameBound(k, range.nbits, range.lbound, domain.lbound, range.wide);
    var upper := SameBound(k, range.nbits, range.ubound, domain.ubound, range.wide);
    m := Mvalue(range, lower && upper);
  }

  /** Node n is true exactly of the assignments whose block holds a value in the range. */
  ghost predicate Encodes(t: seq<Node>, range: Range, offset: nat, n: nat)
    requires WellFormed(t)
  {
    n < |t| && forall env :: Eval(t, n, env) <==> range.lbound <= BlockValue(env, offset, range.nbits) <= range.ubound
  }

  lemma ExtendBlock(t: seq<Node>, t': seq<Node>, offset: nat, v: Bvec)
    requires WellFormed(t) && WellFormed(t') && t <= t' && IsBlock(t, offset, v)
    ensures IsBlock(t', offset, v) && InTable(t', v)
  {
  }

  /** What one comparison with a constant says about the block. */
  lemma ComparedWith(t: seq<Node>, o: Order, offset: nat, v: Bvec, x: nat, p: nat, below: bool)
    requires WellFormed(t) && IsBlock(t, offset, v) && x < Pow2(|v|)
    requires if below then Decides(t, o, Constant(|v|, x), v, p) else Decides(t, o, v, Constant(|v|, x), p)
    ensures p < |t|
    ensures forall env :: Eval(t, p, env) <==>
      if below then Holds(o, x, BlockValue(env, offset, |v|)) else Holds(o, BlockValue(env, offset, |v|), x)
  {
    SmallMod(x, Pow2(|v|));
    forall env ensures Eval(t, p, env) <==>
      if below then Holds(o, x, BlockValue(env, offset, |v|)) else Holds(o, BlockValue(env, offset, |v|), x)
    {
      BlockVal(t, offset, v, env);
      ConstantVal(t, |v|, x, env);
    }
  }

  lemma EncodesAll(t: seq<Node>, m: Mvalue, offset: nat)
    requires WellFormed(t) && ValidMvalue(m) && m.all
    ensures Encodes(t, m.range, offset, 1)
  {
    Constants(t);
    forall env ensures BlockValue(env, offset, m.range.nbits) < Pow2(m.range.nbits) {
      BlockBound(env, offset, m.range.nbits);
    }
  }

  /** Mvalue::make_bdd on the variables of its domain. */
  method MakeBdd(k: Kernel, m: Mvalue, ghost offset: nat, v: Bvec) returns (res: nat)
    requires k.Valid() && ValidMvalue(m)
    requires |v| == m.range.nbits && IsBlock(k.nodes, offset, v)
    modifies k
    ensures k.Valid() && k.Kept()
    ensures Encodes(k.nodes, m.range, offset, res)
  {
    hide k.Valid, WellFormed, Eval, Val, Constant, Decides, Pow2, IsBlock, BlockValue, Encodes;
    var err;
    ghost var t := k.nodes;
    ExtendBlock(t, t, offset, v);
    if m.all {
      EncodesAll(k.nodes, m, offset);
      return 1;
    }
    var lower := Bound(m.range.nbits, m.range.lbound, m.range.wide);
    ConstantsInTable(t, m.range.nbits, m.range.lbound);
    if m.range.lbound == m.range.ubound {
      res, err := Compare(k, Equal, v, lower);
      ExtendBlock(t, k.nodes, offset, v);
      EncodesOne(k.nodes, m.range, offset, v, res);
      return;
    }
    var condition1, condition2;
    condition1, err := Compare(k, BelowOrEqual, lower, v);
    ghost var t1 := k.nodes;
    ExtendBlock(t, t1, offset, v);
    var upper := Bound(m.range.nbits, m.range.ubound, m.range.wide);
    ConstantsInTable(t1, m.range.nbits, m.range.ubound);
    condition2, err := Compare(k, BelowOrEqual, v, upper);
    ghost var t2 := k.nodes;
    ExtendDecides(t1, t2, BelowOrEqual, lower, v, condition1);
    DecidesShape(t2, BelowOrEqual, lower, v, condition1);
    res := Gate(k, condition1, condition2, AND);
    ExtendBlock(t, k.nodes, offset, v);
    ExtendDecides(t2, k.nodes, BelowOrEqual, lower, v, condition1);
    ExtendDecides(t2, k.nodes, BelowOrEqual, v, upper, condition2);
    EncodesInterval(k.nodes, m.range, offset, v, condition1, condition2, res);
  }

  lemma DecidesShape(t: seq<Node>, o: Order, l: Bvec, r: Bvec, p: nat)
    requires WellFormed(t) && Decides(t, o, l, r, p)
    ensures p < |t|
  {
  }

  lemma EncodesOne(t: seq<Node>, range: Range, offset: nat, v: Bvec, p: nat)
    requires WellFormed(t) && range.Valid() && range.lbound == range.ubound
    requires |v| == range.nbits && IsBlock(t, offset, v)
    requires Decides(t, Equal, v, Constant(range.nbits, range.lbound), p)
    ensures Encodes(t, range, offset, p)
  {
    ComparedWith(t, Equal, offset, v, range.lbound, p, false);
  }

  lemma EncodesInterval(t: seq<Node>, range: Range, offset: nat, v: Bvec, p1: nat, p2: nat, res: nat)
    requires WellFormed(t) && range.Valid()
    requires |v| == range.nbits && IsBlock(t, offset, v)
    requires Decides(t, BelowOrEqual, Constant(range.nbits, range.lbound), v, p1)
    requires Decides(t, BelowOrEqual, v, Constant(range.nbits, range.ubound), p2)
    requires IsApply(t, AND, p1, p2, res)
    ensures Encodes(t, range, offset, res)
  {
    ComparedWith(t, BelowOrEqual, offset, v, range.lbound, p1, true);
    ComparedWith(t, BelowOrEqual, offset, v, range.ubound, p2, false);
  }
}
