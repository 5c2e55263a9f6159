/** What a vector of nodes means as a number, and what one bit position of each circuit computes. */
module BitVectors {
  import opened Table
  import opened Meaning
  import opened Powers

  /** A bit vector: nodes of the table, the least significant bit first. */
  type Bvec = seq<nat>

  ghost predicate InTable(t: seq<Node>, v: Bvec) {
    forall i :: 0 <= i < |v| ==> v[i] < |t|
  }

  function Bit(b: bool): nat {
    if b then 1 else 0
  }

  function Weigh(b: bool, p: nat): nat {
    if b then p else 0
  }

  /** The number that the vector is under an assignment. */
  ghost function Val(t: seq<Node>, v: Bvec, env: Env): nat
    requires WellFormed(t) && InTable(t, v)
  {
    if v == [] then 0
    else
      var last := |v| - 1;
      Val(t, v[..last], env) + Weigh(Eval(t, v[last], env), Pow2(last))
  }

  lemma {:induction false} ValBound(t: seq<Node>, v: Bvec, env: Env)
    requires WellFormed(t) && InTable(t, v)
    ensures Val(t, v, env) < Pow2(|v|)
  {
    if v != [] { ValBound(t, v[..|v| - 1], env); }
  }

  lemma {:induction false} ExtendVal(t: seq<Node>, t': seq<Node>, v: Bvec, env: Env)
    requires WellFormed(t) && WellFormed(t') && t <= t' && InTable(t, v)
    ensures InTable(t', v) && Val(t', v, env) == Val(t, v, env)
  {
    if v != [] {
      ExtendVal(t, t', v[..|v| - 1], env);
      ExtendEval(t, t', v[|v| - 1], env);
    }
  }

  lemma ExtendVals(t: seq<Node>, t': seq<Node>, v: Bvec)
    requires WellFormed(t) && WellFormed(t') && t <= t' && InTable(t, v)
    ensures InTable(t', v)
    ensures forall env :: Val(t', v, env) == Val(t, v, env)
  {
    forall env ensures Val(t', v, env) == Val(t, v, env) {
      ExtendVal(t, t', v, env);
    }
  }

  lemma ValPush(t: seq<Node>, v: Bvec, b: nat, env: Env)
    requires WellFormed(t) && InTable(t, v) && b < |t|
    ensures InTable(t, v + [b])
    ensures Val(t, v + [b], env) == Val(t, v, env) + Weigh(Eval(t, b, env), Pow2(|v|))
  {
    assert (v + [b])[..|v|] == v;
  }

  lemma ValPrefix(t: seq<Node>, v: Bvec, n: nat, env: Env)
    requires WellFormed(t) && InTable(t, v) && n < |v|
    ensures Val(t, v[..n + 1], env) == Val(t, v[..n], env) + Weigh(Eval(t, v[n], env), Pow2(n))
  {
    assert v[..n + 1][..n] == v[..n];
  }

  /** Putting a bit below a vector doubles it. */
  lemma {:induction false} ValCons(t: seq<Node>, b: nat, v: Bvec, env: Env)
    requires WellFormed(t) && InTable(t, v) && b < |t|
    ensures InTable(t, [b] + v)
    ensures Val(t, [b] + v, env) == 2 * Val(t, v, env) + Bit(Eval(t, b, env))
  {
    var w := [b] + v;
    var last := |v|;
    if v == [] {
      assert w[..0] == [];
      assert Val(t, w, env) == Val(t, w[..0], env) + Weigh(Eval(t, b, env), Pow2(0));
    } else {
      assert w[..last] == [b] + v[..last - 1];
      ValCons(t, b, v[..last - 1], env);
    }
  }

  /** One position of the adder: sum bit and carry. */
  ghost predicate IsSum(t: seq<Node>, l: nat, r: nat, c: nat, s: nat, c': nat)
    requires WellFormed(t)
  {
    && l < |t| && r < |t| && c < |t| && s < |t| && c' < |t|
    && forall env :: Bit(Eval(t, s, env)) + 2 * Bit(Eval(t, c', env)) ==
                     Bit(Eval(t, l, env)) + Bit(Eval(t, r, env)) + Bit(Eval(t, c, env))
  }

  /** One position of the subtractor: difference bit and borrow. */
  ghost predicate IsDifference(t: seq<Node>, l: nat, r: nat, c: nat, s: nat, c': nat)
    requires WellFormed(t)
  {
    && l < |t| && r < |t| && c < |t| && s < |t| && c' < |t|
    && forall env :: Bit(Eval(t, s, env)) - 2 * Bit(Eval(t, c', env)) ==
                     Bit(Eval(t, l, env)) - Bit(Eval(t, r, env)) - Bit(Eval(t, c, env))
  }

  lemma AdderGates(t: seq<Node>, l: nat, r: nat, c: nat, x: nat, s: nat, o: nat, m: nat, a: nat, c': nat)
    requires WellFormed(t)
    requires IsApply(t, XOR, l, r, x) && IsApply(t, XOR, x, c, s)
    requires IsApply(t, OR, l, r, o) && IsApply(t, AND, c, o, m)
    requires IsApply(t, AND, l, r, a) && IsApply(t, OR, a, m, c')
    ensures IsSum(t, l, r, c, s, c')
  {
  }

  lemma SubtractorGates(t: seq<Node>, l: nat, r: nat, c: nat, x: nat, s: nat, o: nat, m: nat, a: nat, b: nat, c': nat)
    requires WellFormed(t)
    requires IsApply(t, XOR, l, r, x) && IsApply(t, XOR, x, c, s)
    requires IsApply(t, OR, r, c, o) && IsApply(t, LESS, l, o, m)
    requires IsApply(t, AND, l, r, a) && IsApply(t, AND, a, c, b) && IsApply(t, OR, b, m, c')
    ensures IsDifference(t, l, r, c, s, c')
  {
  }

  /** The low n bits of l and r add up to sum, with carry c out of them. */
  ghost predicate Adds(t: seq<Node>, l: Bvec, r: Bvec, sum: Bvec, c: nat)
    requires WellFormed(t)
  {
    && InTable(t, l) && InTable(t, r) && InTable(t, sum) && c < |t|
    && forall env :: Val(t, sum, env) + Weigh(Eval(t, c, env), Pow2(|sum|)) == Val(t, l, env) + Val(t, r, env)
  }

  ghost predicate Subtracts(t: seq<Node>, l: Bvec, r: Bvec, difference: Bvec, c: nat)
    requires WellFormed(t)
  {
    && InTable(t, l) && InTable(t, r) && InTable(t, difference) && c < |t|
    && forall env :: Val(t, difference, env) - Weigh(Eval(t, c, env), Pow2(|difference|)) ==
                     Val(t, l, env) - Val(t, r, env)
  }

  lemma ExtendAdds(t: seq<Node>, t': seq<Node>, l: Bvec, r: Bvec, sum: Bvec, c: nat)
    requires WellFormed(t) && WellFormed(t') && t <= t' && Adds(t, l, r, sum, c)
    ensures Adds(t', l, r, sum, c)
  {
    ExtendVals(t, t', l);
    ExtendVals(t, t', r);
    ExtendVals(t, t', sum);
    ExtendAll(t, t');
  }

  lemma ExtendSubtracts(t: seq<Node>, t': seq<Node>, l: Bvec, r: Bvec, difference: Bvec, c: nat)
    requires WellFormed(t) && WellFormed(t') && t <= t' && Subtracts(t, l, r, difference, c)
    ensures Subtracts(t', l, r, difference, c)
  {
    ExtendVals(t, t', l);
    ExtendVals(t, t', r);
    ExtendVals(t, t', difference);
    ExtendAll(t, t');
  }

  lemma NothingYet(t: seq<Node>)
    requires WellFormed(t)
    ensures Adds(t, [], [], [], 0) && Subtracts(t, [], [], [], 0)
  {
    Constants(t);
  }

  lemma AddsStep(t: seq<Node>, t': seq<Node>, l: Bvec, r: Bvec, n: nat, sum: Bvec, c: nat, s: nat, c': nat)
    requires WellFormed(t) && WellFormed(t') && t <= t'
    requires n < |l| && n < |r| && |sum| == n && InTable(t, l) && InTable(t, r)
    requires Adds(t, l[..n], r[..n], sum, c) && IsSum(t', l[n], r[n], c, s, c')
    ensures Adds(t', l[..n + 1], r[..n + 1], sum + [s], c')
  {
    ExtendAdds(t, t', l[..n], r[..n], sum, c);
    forall env
      ensures InTable(t', sum + [s]) && InTable(t', l[..n + 1]) && InTable(t', r[..n + 1])
      ensures Val(t', sum + [s], env) + Weigh(Eval(t', c', env), Pow2(n + 1)) ==
              Val(t', l[..n + 1], env) + Val(t', r[..n + 1], env)
    {
      ValPush(t', sum, s, env);
      ValPrefix(t', l, n, env);
      ValPrefix(t', r, n, env);
    }
  }

  lemma SubtractsStep(t: seq<Node>, t': seq<Node>, l: Bvec, r: Bvec, n: nat, difference: Bvec, c: nat, s: nat, c': nat)
    requires WellFormed(t) && WellFormed(t') && t <= t'
    requires n < |l| && n < |r| && |difference| == n && InTable(t, l) && InTable(t, r)
    requires Subtracts(t, l[..n], r[..n], difference, c) && IsDifference(t', l[n], r[n], c, s, c')
    ensures Subtracts(t', l[..n + 1], r[..n + 1], difference + [s], c')
  {
    ExtendSubtracts(t, t', l[..n], r[..n], difference, c);
    forall env
      ensures InTable(t', difference + [s]) && InTable(t', l[..n + 1]) && InTable(t', r[..n + 1])
      ensures Val(t', difference + [s], env) - Weigh(Eval(t', c', env), Pow2(n + 1)) ==
              Val(t', l[..n + 1], env) - Val(t', r[..n + 1], env)
    {
      ValPush(t', difference, s, env);
      ValPrefix(t', l, n, env);
      ValPrefix(t', r, n, env);
    }
  }

  /** A carry or borrow out of the top only ever takes one turn around 2^n. */
  lemma WrapUp(x: nat, p: nat, c: bool, total: nat)
    requires x < p && x + Weigh(c, p) == total
    ensures x == Mod(total, p)
  {
    if c {
      assert (x + p) % p == x;
    }
  }

  lemma WrapDown(x: nat, p: nat, c: bool, total: int)
    requires x < p && x - Weigh(c, p) == total
    ensures x == Mod(total, p)
  {
  }

  /** Addition and subtraction modulo 2^n, n the common width. */
  ghost predicate IsAddition(t: seq<Node>, l: Bvec, r: Bvec, res: Bvec)
    requires WellFormed(t)
  {
    && InTable(t, l) && InTable(t, r) && InTable(t, res)
    && |res| == |l| == |r|
    && forall env :: Val(t, res, env) == Mod(Val(t, l, env) + Val(t, r, env), Pow2(|res|))
  }

  ghost predicate IsSubtraction(t: seq<Node>, l: Bvec, r: Bvec, res: Bvec)
    requires WellFormed(t)
  {
    && InTable(t, l) && InTable(t, r) && InTable(t, res)
    && |res| == |l| == |r|
    && forall env :: Val(t, res, env) == Mod(Val(t, l, env) - Val(t, r, env), Pow2(|res|))
  }

  lemma ExtendAddition(t: seq<Node>, t': seq<Node>, l: Bvec, r: Bvec, res: Bvec)
    requires WellFormed(t) && WellFormed(t') && t <= t' && IsAddition(t, l, r, res)
    ensures IsAddition(t', l, r, res)
  {
    ExtendVals(t, t', l);
    ExtendVals(t, t', r);
    ExtendVals(t, t', res);
  }

  lemma ExtendSubtraction(t: seq<Node>, t': seq<Node>, l: Bvec, r: Bvec, res: Bvec)
    requires WellFormed(t) && WellFormed(t') && t <= t' && IsSubtraction(t, l, r, res)
    ensures IsSubtraction(t', l, r, res)
  {
    ExtendVals(t, t', l);
    ExtendVals(t, t', r);
    ExtendVals(t, t', res);
  }

  lemma AddsWraps(t: seq<Node>, l: Bvec, r: Bvec, sum: Bvec, c: nat)
    requires WellFormed(t) && |l| == |r| == |sum| && Adds(t, l[..|sum|], r[..|sum|], sum, c)
    ensures IsAddition(t, l, r, sum)
  {
    assert l[..|sum|] == l && r[..|sum|] == r;
    forall env ensures Val(t, sum, env) == Mod(Val(t, l, env) + Val(t, r, env), Pow2(|sum|)) {
      ValBound(t, sum, env);
      WrapUp(Val(t, sum, env), Pow2(|sum|), Eval(t, c, env), Val(t, l, env) + Val(t, r, env));
    }
  }

  lemma SubtractsWraps(t: seq<Node>, l: Bvec, r: Bvec, difference: Bvec, c: nat)
    requires WellFormed(t) && |l| == |r| == |difference|
    requires Subtracts(t, l[..|difference|], r[..|difference|], difference, c)
    ensures IsSubtraction(t, l, r, difference)
  {
    assert l[..|difference|] == l && r[..|difference|] == r;
    forall env ensures Val(t, difference, env) == Mod(Val(t, l, env) - Val(t, r, env), Pow2(|difference|)) {
      ValBound(t, difference, env);
      WrapDown(Val(t, difference, env), Pow2(|difference|), Eval(t, c, env), Val(t, l, env) - Val(t, r, env));
    }
  }

  /** One position of a comparator: the higher bit decides, and equal bits leave the answer. */
  ghost predicate IsDecision(t: seq<Node>, l: nat, r: nat, p: nat, p': nat)
    requires WellFormed(t)
  {
    && l < |t| && r < |t| && p < |t| && p' < |t|
    && forall env :: Eval(t, p', env) ==
                     if Eval(t, l, env) == Eval(t, r, env) then Eval(t, p, env) else Eval(t, r, env)
  }

  lemma DecisionGates(t: seq<Node>, l: nat, r: nat, p: nat, x: nat, e: nat, m: nat, p': nat)
    requires WellFormed(t)
    requires IsApply(t, LESS, l, r, x) && IsApply(t, BIIMP, l, r, e)
    requires IsApply(t, AND, e, p, m) && IsApply(t, OR, x, m, p')
    ensures IsDecision(t, l, r, p, p')
  {
  }

  datatype Order = Below | BelowOrEqual | Equal

  predicate Holds(o: Order, x: int, y: int) {
    match o
    case Below => x < y
    case BelowOrEqual => x <= y
    case Equal => x == y
  }

  /** p decides how the numbers of l and r compare. */
  ghost predicate Decides(t: seq<Node>, o: Order, l: Bvec, r: Bvec, p: nat)
    requires WellFormed(t)
  {
    && InTable(t, l) && InTable(t, r) && p < |t|
    && forall env :: Eval(t, p, env) <==> Holds(o, Val(t, l, env), Val(t, r, env))
  }

  lemma ExtendDecides(t: seq<Node>, t': seq<Node>, o: Order, l: Bvec, r: Bvec, p: nat)
    requires WellFormed(t) && WellFormed(t') && t <= t' && Decides(t, o, l, r, p)
    ensures Decides(t', o, l, r, p)
  {
    ExtendVals(t, t', l);
    ExtendVals(t, t', r);
    ExtendAll(t, t');
  }

  lemma NothingCompared(t: seq<Node>)
    requires WellFormed(t)
    ensures Decides(t, Below, [], [], 0) && Decides(t, BelowOrEqual, [], [], 1) && Decides(t, Equal, [], [], 1)
  {
    Constants(t);
  }

  lemma DecidesStep(t: seq<Node>, t': seq<Node>, o: Order, l: Bvec, r: Bvec, n: nat, p: nat, p': nat)
    requires WellFormed(t) && WellFormed(t') && t <= t'
    requires n < |l| && n < |r| && InTable(t, l) && InTable(t, r)
    requires Decides(t, o, l[..n], r[..n], p)
    requires o != Equal ==> IsDecision(t', l[n], r[n], p, p')
    requires o == Equal ==> IsMatch(t', l[n], r[n], p, p')
    ensures Decides(t', o, l[..n + 1], r[..n + 1], p')
  {
    ExtendDecides(t, t', o, l[..n], r[..n], p);
    forall env
      ensures InTable(t', l[..n + 1]) && InTable(t', r[..n + 1])
      ensures Eval(t', p', env) <==> Holds(o, Val(t', l[..n + 1], env), Val(t', r[..n + 1], env))
    {
      ValPrefix(t', l, n, env);
      ValPrefix(t', r, n, env);
      ValBound(t', l[..n], env);
      ValBound(t', r[..n], env);
    }
  }

  /** One position of the equality test. */
  ghost predicate IsMatch(t: seq<Node>, l: nat, r: nat, p: nat, p': nat)
    requires WellFormed(t)
  {
    && l < |t| && r < |t| && p < |t| && p' < |t|
    && forall env :: Eval(t, p', env) == (Eval(t, p, env) && Eval(t, l, env) == Eval(t, r, env))
  }

  lemma MatchGates(t: seq<Node>, l: nat, r: nat, p: nat, x: nat, p': nat)
    requires WellFormed(t) && IsApply(t, BIIMP, l, r, x) && IsApply(t, AND, x, p, p')
    ensures IsMatch(t, l, r, p, p')
  {
  }

  /** A vector of chosen bits is the chosen number. */
  ghost predicate IsChoice(t: seq<Node>, c: nat, a: Bvec, b: Bvec, res: Bvec)
    requires WellFormed(t)
  {
    && InTable(t, a) && InTable(t, b) && InTable(t, res) && c < |t|
    && |a| == |b| == |res|
    && forall i :: 0 <= i < |res| ==> IsIte(t, c, a[i], b[i], res[i])
  }

  lemma {:induction false} ChoiceVal(t: seq<Node>, c: nat, a: Bvec, b: Bvec, res: Bvec, env: Env)
    requires WellFormed(t) && IsChoice(t, c, a, b, res)
    ensures Val(t, res, env) == if Eval(t, c, env) then Val(t, a, env) else Val(t, b, env)
  {
    if res != [] {
      hide WellFormed, Pow2;
      var last := |res| - 1;
      IteAt(t, c, a[last], b[last], res[last], env);
      hide IsIte;
      ChoiceVal(t, c, a[..last], b[..last], res[..last], env);
    }
  }

  lemma IteAt(t: seq<Node>, c: nat, a: nat, b: nat, res: nat, env: Env)
    requires WellFormed(t) && IsIte(t, c, a, b, res)
    ensures Eval(t, res, env) == if Eval(t, c, env) then Eval(t, a, env) else Eval(t, b, env)
  {
  }
}
