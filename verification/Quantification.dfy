/** Quantification over a set of variables, and its fusion with a binary operator. */
module Quantification {
  import opened Table
  import opened Meaning

  /** The variables of a variable set: the levels met along its chain of high edges. */
  ghost function CubeVars(t: seq<Node>, n: nat): set<nat>
    requires WellFormed(t) && n < |t|
    decreases t[0].level - t[n].level
  {
    if n < 2 then {}
    else
      assert InnerOk(t, n);
      {t[n].level} + CubeVars(t, t[n].high)
  }

  /** A positive cube: a conjunction of variables. */
  ghost predicate IsCube(t: seq<Node>, n: nat)
    requires WellFormed(t) && n < |t|
    decreases t[0].level - t[n].level
  {
    if n < 2 then n == 1
    else
      assert InnerOk(t, n);
      t[n].low == 0 && IsCube(t, t[n].high)
  }

  lemma {:induction false} CubeMeaning(t: seq<Node>, n: nat, env: Env)
    requires WellFormed(t) && n < |t| && IsCube(t, n)
    ensures Eval(t, n, env) <==> CubeVars(t, n) <= env
    decreases t[0].level - t[n].level
  {
    if n >= 2 {
      assert InnerOk(t, n);
      CubeMeaning(t, t[n].high, env);
    }
  }

  lemma {:induction false} CubeVarsBelow(t: seq<Node>, n: nat)
    requires WellFormed(t) && n < |t|
    ensures forall v :: v in CubeVars(t, n) ==> t[n].level <= v < t[0].level
    decreases t[0].level - t[n].level
  {
    if n >= 2 {
      assert InnerOk(t, n);
      CubeVarsBelow(t, t[n].high);
    }
  }

  lemma {:induction false} ExtendCubeVars(t: seq<Node>, t': seq<Node>, n: nat)
    requires WellFormed(t) && WellFormed(t') && Extends(t, t') && n < |t|
    ensures CubeVars(t', n) == CubeVars(t, n)
    decreases t[0].level - t[n].level
  {
    if n >= 2 {
      assert InnerOk(t, n);
      ExtendCubeVars(t, t', t[n].high);
    }
  }

  ghost function Den(t: seq<Node>, n: nat): iset<Env>
    requires WellFormed(t) && n < |t|
  {
    iset env: Env | Eval(t, n, env)
  }

  ghost function Combine(t: seq<Node>, op: int, l: nat, r: nat): iset<Env>
    requires WellFormed(t) && IsOp(op) && l < |t| && r < |t|
  {
    iset env: Env | Connective(op, Eval(t, l, env), Eval(t, r, env))
  }

  /** Does s hold for all (or for some) values of vars, the other variables being as in env? */
  ghost predicate Quantified(all: bool, vars: set<nat>, s: iset<Env>, env: Env) {
    if all then forall e: Env :: e - vars == env - vars ==> e in s
    else exists e: Env :: e - vars == env - vars && e in s
  }

  ghost predicate IsQuant(t: seq<Node>, all: bool, vars: set<nat>, r: nat, res: nat)
    requires WellFormed(t)
  {
    && r < |t| && res < |t|
    && t[r].level <= t[res].level
    && forall env :: Eval(t, res, env) == Quantified(all, vars, Den(t, r), env)
  }

  ghost predicate IsAppQuant(t: seq<Node>, all: bool, vars: set<nat>, op: int, l: nat, r: nat, res: nat)
    requires WellFormed(t) && IsOp(op)
  {
    && l < |t| && r < |t| && res < |t|
    && Min(t[l].level, t[r].level) <= t[res].level
    && forall env :: Eval(t, res, env) == Quantified(all, vars, Combine(t, op, l, r), env)
  }

  function Joiner(all: bool): int {
    if all then AND else OR
  }

  lemma ExtendQuant(t: seq<Node>, t': seq<Node>, all: bool, vars: set<nat>, r: nat, res: nat)
    requires WellFormed(t) && WellFormed(t') && Extends(t, t') && IsQuant(t, all, vars, r, res)
    ensures IsQuant(t', all, vars, r, res)
  {
    ExtendLevels(t, t', r, res);
    ExtendAll(t, t');
    assert Den(t, r) == Den(t', r);
  }

  lemma ExtendAppQuant(t: seq<Node>, t': seq<Node>, all: bool, vars: set<nat>, op: int, l: nat, r: nat, res: nat)
    requires WellFormed(t) && WellFormed(t') && Extends(t, t') && IsOp(op) && IsAppQuant(t, all, vars, op, l, r, res)
    ensures IsAppQuant(t', all, vars, op, l, r, res)
  {
    ExtendLevels(t, t', l, res);
    ExtendLevels(t, t', r, res);
    ExtendAll(t, t');
    assert Combine(t, op, l, r) == Combine(t', op, l, r);
  }

  /** s splits on variable v into s0 and s1, which do not look at v themselves. */
  ghost predicate SplitsAt(s: iset<Env>, v: nat, s0: iset<Env>, s1: iset<Env>, e: Env) {
    && (e in s <==> if v in e then e in s1 else e in s0)
    && (e + {v} in s <==> e in s1)
    && (e - {v} in s <==> e in s0)
  }

  ghost predicate Splits(s: iset<Env>, v: nat, s0: iset<Env>, s1: iset<Env>) {
    forall e: Env :: SplitsAt(s, v, s0, s1, e)
  }

  lemma CofactorsAt(t: seq<Node>, n: nat, v: nat, e: Env)
    requires WellFormed(t) && n < |t| && v <= t[n].level && v < t[0].level
    ensures Lo(t, n, v) < |t| && Hi(t, n, v) < |t|
    ensures Eval(t, n, e) == if v in e then Eval(t, Hi(t, n, v), e) else Eval(t, Lo(t, n, v), e)
    ensures Eval(t, n, e + {v}) == Eval(t, Hi(t, n, v), e)
    ensures Eval(t, n, e - {v}) == Eval(t, Lo(t, n, v), e)
  {
    Cofactors(t, n, v);
    Above(t, Hi(t, n, v), v, e);
    Above(t, Lo(t, n, v), v, e);
  }

  lemma SplitsDen(t: seq<Node>, n: nat, v: nat)
    requires WellFormed(t) && n < |t| && v <= t[n].level && v < t[0].level
    ensures Lo(t, n, v) < |t| && Hi(t, n, v) < |t|
    ensures Splits(Den(t, n), v, Den(t, Lo(t, n, v)), Den(t, Hi(t, n, v)))
  {
    CofactorsAt(t, n, v, {});
    forall e: Env ensures SplitsAt(Den(t, n), v, Den(t, Lo(t, n, v)), Den(t, Hi(t, n, v)), e) {
      CofactorsAt(t, n, v, e);
    }
  }

  lemma SplitsCombine(t: seq<Node>, op: int, l: nat, r: nat, v: nat)
    requires WellFormed(t) && IsOp(op) && l < |t| && r < |t|
    requires v <= t[l].level && v <= t[r].level && v < t[0].level
    ensures Lo(t, l, v) < |t| && Hi(t, l, v) < |t| && Lo(t, r, v) < |t| && Hi(t, r, v) < |t|
    ensures Splits(Combine(t, op, l, r), v,
                   Combine(t, op, Lo(t, l, v), Lo(t, r, v)), Combine(t, op, Hi(t, l, v), Hi(t, r, v)))
  {
    CofactorsAt(t, l, v, {});
    CofactorsAt(t, r, v, {});
    var s := Combine(t, op, l, r);
    var s0, s1 := Combine(t, op, Lo(t, l, v), Lo(t, r, v)), Combine(t, op, Hi(t, l, v), Hi(t, r, v));
    forall e: Env ensures SplitsAt(s, v, s0, s1, e) {
      CofactorsAt(t, l, v, e);
      CofactorsAt(t, r, v, e);
    }
  }

  /** Quantifying a split set over a quantified variable joins the two halves. */
  lemma QuantifySplit(all: bool, vars: set<nat>, s: iset<Env>, v: nat, s0: iset<Env>, s1: iset<Env>, env: Env)
    requires Splits(s, v, s0, s1) && v in vars
    ensures Quantified(all, vars, s, env)
         == Connective(Joiner(all), Quantified(all, vars, s0, env), Quantified(all, vars, s1, env))
  {
    if all {
      if Quantified(all, vars, s, env) {
        forall e: Env | e - vars == env - vars ensures e in s0 && e in s1 {
          Toggle(vars, v, e);
          assert SplitsAt(s, v, s0, s1, e);
        }
      }
      if Quantified(all, vars, s0, env) && Quantified(all, vars, s1, env) {
        forall e: Env | e - vars == env - vars ensures e in s {
          assert SplitsAt(s, v, s0, s1, e);
        }
      }
    } else {
      if Quantified(all, vars, s, env) {
        var e: Env :| e - vars == env - vars && e in s;
        assert SplitsAt(s, v, s0, s1, e);
      }
      if Quantified(all, vars, s0, env) {
        var e: Env :| e - vars == env - vars && e in s0;
        Toggle(vars, v, e);
        assert SplitsAt(s, v, s0, s1, e);
      }
      if Quantified(all, vars, s1, env) {
        var e: Env :| e - vars == env - vars && e in s1;
        Toggle(vars, v, e);
        assert SplitsAt(s, v, s0, s1, e);
      }
    }
  }

  lemma Toggle(vars: set<nat>, v: nat, e: Env)
    requires v in vars
    ensures (e + {v}) - vars == e - vars
    ensures (e - {v}) - vars == e - vars
  {
  }

  /** A variable that is not quantified selects one half. */
  lemma QuantifyKeep(all: bool, vars: set<nat>, s: iset<Env>, v: nat, s0: iset<Env>, s1: iset<Env>, env: Env)
    requires Splits(s, v, s0, s1) && v !in vars
    ensures Quantified(all, vars, s, env)
         == if v in env then Quantified(all, vars, s1, env) else Quantified(all, vars, s0, env)
  {
    forall e: Env | e - vars == env - vars
      ensures v in e <==> v in env
      ensures e in s <==> if v in env then e in s1 else e in s0
    {
      assert v in e - vars <==> v in env - vars;
      assert SplitsAt(s, v, s0, s1, e);
    }
  }

  /** How two quantified halves are put together again. */
  ghost predicate IsJoin(t: seq<Node>, all: bool, vars: set<nat>, v: nat, lo: nat, hi: nat, res: nat)
    requires WellFormed(t)
  {
    if v in vars then IsApply(t, Joiner(all), lo, hi, res) else IsBranch(t, v, lo, hi, res)
  }

  ghost predicate AreQuantHalves(t: seq<Node>, all: bool, vars: set<nat>, r: nat, lo: nat, hi: nat)
    requires WellFormed(t)
  {
    && 2 <= r < |t|
    && IsQuant(t, all, vars, t[r].low, lo)
    && IsQuant(t, all, vars, t[r].high, hi)
  }

  lemma QuantHalves(t1: seq<Node>, t: seq<Node>, all: bool, vars: set<nat>, r: nat, lo: nat, hi: nat)
    requires WellFormed(t1) && WellFormed(t) && t1 <= t && 2 <= r < |t1|
    requires IsQuant(t1, all, vars, t1[r].low, lo) && IsQuant(t, all, vars, t1[r].high, hi)
    ensures AreQuantHalves(t, all, vars, r, lo, hi)
    ensures lo < |t| && t[r].level < t[lo].level && hi < |t| && t[r].level < t[hi].level
  {
    ExtendQuant(t1, t, all, vars, t1[r].low, lo);
    LevelBound(t, r);
  }

  lemma QuantStep(t: seq<Node>, t': seq<Node>, all: bool, vars: set<nat>, r: nat, lo: nat, hi: nat, res: nat)
    requires WellFormed(t) && WellFormed(t') && t <= t'
    requires AreQuantHalves(t, all, vars, r, lo, hi)
    requires IsJoin(t', all, vars, t[r].level, lo, hi, res)
    ensures IsQuant(t', all, vars, r, res)
  {
    ExtendQuant(t, t', all, vars, t[r].low, lo);
    ExtendQuant(t, t', all, vars, t[r].high, hi);
    LevelBound(t', r);
    var v := t[r].level;
    SplitsDen(t', r, v);
    forall env ensures Eval(t', res, env) == Quantified(all, vars, Den(t', r), env) {
      if v in vars {
        QuantifySplit(all, vars, Den(t', r), v, Den(t', t[r].low), Den(t', t[r].high), env);
      } else {
        QuantifyKeep(all, vars, Den(t', r), v, Den(t', t[r].low), Den(t', t[r].high), env);
      }
    }
  }

  ghost predicate AreAppQuantHalves(t: seq<Node>, all: bool, vars: set<nat>, op: int, l: nat, r: nat,
                                    v: nat, lo: nat, hi: nat)
    requires WellFormed(t) && IsOp(op)
  {
    && l < |t| && r < |t|
    && v == Min(t[l].level, t[r].level) < t[0].level
    && IsAppQuant(t, all, vars, op, Lo(t, l, v), Lo(t, r, v), lo)
    && IsAppQuant(t, all, vars, op, Hi(t, l, v), Hi(t, r, v), hi)
  }

  lemma AppQuantHalvesFrom(t1: seq<Node>, t: seq<Node>, all: bool, vars: set<nat>, op: int, l: nat, r: nat,
                           v: nat, lo: nat, hi: nat)
    requires WellFormed(t1) && WellFormed(t) && t1 <= t && IsOp(op)
    requires l < |t1| && r < |t1| && v == Min(t1[l].level, t1[r].level) < t1[0].level
    requires IsAppQuant(t1, all, vars, op, Lo(t1, l, v), Lo(t1, r, v), lo)
    requires IsAppQuant(t, all, vars, op, Hi(t1, l, v), Hi(t1, r, v), hi)
    ensures AreAppQuantHalves(t, all, vars, op, l, r, v, lo, hi)
    ensures lo < |t| && v < t[lo].level && hi < |t| && v < t[hi].level
  {
    ExtendAppQuant(t1, t, all, vars, op, Lo(t1, l, v), Lo(t1, r, v), lo);
    Cofactors(t1, l, v);
    Cofactors(t1, r, v);
  }

  lemma AppQuantStep(t: seq<Node>, t': seq<Node>, all: bool, vars: set<nat>, op: int, l: nat, r: nat, v: nat,
                     lo: nat, hi: nat, res: nat)
    requires WellFormed(t) && WellFormed(t') && t <= t' && IsOp(op)
    requires AreAppQuantHalves(t, all, vars, op, l, r, v, lo, hi)
    requires IsJoin(t', all, vars, v, lo, hi, res)
    ensures IsAppQuant(t', all, vars, op, l, r, res)
  {
    hide WellFormed, IsJoin, IsAppQuant;
    ExtendAppQuant(t, t', all, vars, op, Lo(t, l, v), Lo(t, r, v), lo);
    ExtendAppQuant(t, t', all, vars, op, Hi(t, l, v), Hi(t, r, v), hi);
    AppQuantJoin(t', all, vars, op, l, r, v, lo, hi, res);
  }

  lemma AppQuantJoin(t: seq<Node>, all: bool, vars: set<nat>, op: int, l: nat, r: nat, v: nat, lo: nat, hi: nat, res: nat)
    requires WellFormed(t) && IsOp(op)
    requires AreAppQuantHalves(t, all, vars, op, l, r, v, lo, hi)
    requires IsJoin(t, all, vars, v, lo, hi, res)
    ensures IsAppQuant(t, all, vars, op, l, r, res)
  {
    hide WellFormed, Eval, Combine, Quantified, Splits, Connective;
    Cofactors(t, l, v);
    Cofactors(t, r, v);
    SplitsCombine(t, op, l, r, v);
    var s := Combine(t, op, l, r);
    var s0, s1 := Combine(t, op, Lo(t, l, v), Lo(t, r, v)), Combine(t, op, Hi(t, l, v), Hi(t, r, v));
    forall env ensures Eval(t, res, env) == Quantified(all, vars, s, env) {
      if v in vars {
        QuantifySplit(all, vars, s, v, s0, s1, env);
      } else {
        QuantifyKeep(all, vars, s, v, s0, s1, env);
      }
    }
  }

  /** Quantifying variables that lie above a node changes nothing. */
  lemma QuantifyAbove(t: seq<Node>, all: bool, vars: set<nat>, r: nat, env: Env)
    requires WellFormed(t) && r < |t|
    requires forall v :: v in vars ==> v < t[r].level
    ensures Quantified(all, vars, Den(t, r), env) == Eval(t, r, env)
  {
    forall e: Env | e - vars == env - vars ensures e in Den(t, r) <==> Eval(t, r, env) {
      forall v | t[r].level <= v ensures v in e <==> v in env {
        assert v in e - vars <==> v in env - vars;
      }
      Independence(t, r, e, env);
    }
    assert env - vars == env - vars;
  }

  lemma QuantBase(t: seq<Node>, all: bool, vars: set<nat>, r: nat)
    requires WellFormed(t) && r < |t|
    requires forall v :: v in vars ==> v < t[r].level
    ensures IsQuant(t, all, vars, r, r)
  {
    forall env ensures Eval(t, r, env) == Quantified(all, vars, Den(t, r), env) {
      QuantifyAbove(t, all, vars, r, env);
    }
  }

  /** When the combined function is that of one node x, quantifying x is enough. */
  lemma AppQuantCollapse(t: seq<Node>, all: bool, vars: set<nat>, op: int, l: nat, r: nat, x: nat, res: nat)
    requires WellFormed(t) && IsOp(op) && l < |t| && r < |t|
    requires IsQuant(t, all, vars, x, res) && IsApply(t, op, l, r, x)
    ensures Min(t[l].level, t[r].level) <= t[x].level
    ensures IsAppQuant(t, all, vars, op, l, r, res)
  {
    assert Den(t, x) == Combine(t, op, l, r);
  }

  lemma AppQuantConstant(t: seq<Node>, all: bool, vars: set<nat>, op: int, l: nat, r: nat, x: nat)
    requires WellFormed(t) && IsOp(op) && l < |t| && r < |t| && IsApply(t, op, l, r, x)
    requires forall v :: v in vars ==> v < t[x].level
    ensures IsAppQuant(t, all, vars, op, l, r, x)
  {
    QuantBase(t, all, vars, x);
    AppQuantCollapse(t, all, vars, op, l, r, x, x);
  }

  /** The fused operator returns the very node that applying and then quantifying returns. */
  lemma FusedSameNode(t: seq<Node>, all: bool, vars: set<nat>, op: int, l: nat, r: nat,
                      applied: nat, quantified: nat, fused: nat)
    requires WellFormed(t) && IsOp(op)
    requires IsApply(t, op, l, r, applied) && IsQuant(t, all, vars, applied, quantified)
    requires IsAppQuant(t, all, vars, op, l, r, fused)
    ensures fused == quantified
  {
    AppQuantCollapse(t, all, vars, op, l, r, applied, quantified);
    Canonical(t, fused, quantified);
  }
}
