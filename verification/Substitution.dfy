/** Substitution of functions for variables, and renaming of variables. */
module Substitution {
  import opened Table
  import opened Meaning
  import CareSet

  function SetVar(env: Env, v: nat, b: bool): Env {
    if b then env + {v} else env - {v}
  }

  /** compose: f with g put in place of the variable at level x. */
  ghost predicate IsCompose(t: seq<Node>, x: nat, f: nat, g: nat, res: nat)
    requires WellFormed(t)
  {
    && f < |t| && g < |t| && res < |t|
    && Min(t[f].level, t[g].level) <= t[res].level
    && forall env :: Eval(t, res, env) == Eval(t, f, SetVar(env, x, Eval(t, g, env)))
  }

  lemma ExtendCompose(t: seq<Node>, t': seq<Node>, x: nat, f: nat, g: nat, res: nat)
    requires WellFormed(t) && WellFormed(t') && Extends(t, t') && IsCompose(t, x, f, g, res)
    ensures IsCompose(t', x, f, g, res)
  {
    ExtendLevels(t, t', f, res);
    ExtendLevels(t, t', g, res);
    ExtendAll(t, t');
  }

  lemma ComposeBelow(t: seq<Node>, x: nat, f: nat, g: nat)
    requires WellFormed(t) && f < |t| && g < |t| && x < t[f].level
    ensures IsCompose(t, x, f, g, f)
  {
    forall env ensures Eval(t, f, env) == Eval(t, f, SetVar(env, x, Eval(t, g, env))) {
      Above(t, f, x, env);
    }
  }

  lemma ComposeHere(t: seq<Node>, x: nat, f: nat, g: nat, res: nat)
    requires WellFormed(t) && 2 <= f < |t| && t[f].level == x && InnerOk(t, f)
    requires IsIte(t, g, t[f].high, t[f].low, res)
    ensures IsCompose(t, x, f, g, res)
  {
    forall env ensures Eval(t, res, env) == Eval(t, f, SetVar(env, x, Eval(t, g, env))) {
      Above(t, t[f].low, x, env);
      Above(t, t[f].high, x, env);
    }
  }

  ghost predicate AreComposeHalves(t: seq<Node>, x: nat, f: nat, g: nat, v: nat, lo: nat, hi: nat)
    requires WellFormed(t)
  {
    && f < |t| && g < |t|
    && v == Min(t[f].level, t[g].level) < x && v < t[0].level
    && IsCompose(t, x, Lo(t, f, v), Lo(t, g, v), lo)
    && IsCompose(t, x, Hi(t, f, v), Hi(t, g, v), hi)
  }

  lemma ComposeHalvesFrom(t1: seq<Node>, t: seq<Node>, x: nat, f: nat, g: nat, v: nat, lo: nat, hi: nat)
    requires WellFormed(t1) && WellFormed(t) && t1 <= t && f < |t1| && g < |t1|
    requires v == Min(t1[f].level, t1[g].level) < x && v < t1[0].level
    requires IsCompose(t1, x, Lo(t1, f, v), Lo(t1, g, v), lo)
    requires IsCompose(t, x, Hi(t1, f, v), Hi(t1, g, v), hi)
    ensures AreComposeHalves(t, x, f, g, v, lo, hi)
    ensures lo < |t| && v < t[lo].level && hi < |t| && v < t[hi].level
  {
    ExtendCompose(t1, t, x, Lo(t1, f, v), Lo(t1, g, v), lo);
    Cofactors(t1, f, v);
    Cofactors(t1, g, v);
  }

  lemma ComposeStep(t: seq<Node>, t': seq<Node>, x: nat, f: nat, g: nat, v: nat, lo: nat, hi: nat, res: nat)
    requires WellFormed(t) && WellFormed(t') && t <= t'
    requires AreComposeHalves(t, x, f, g, v, lo, hi)
    requires IsBranch(t', v, lo, hi, res)
    ensures IsCompose(t', x, f, g, res)
  {
    hide WellFormed, IsCompose, IsBranch;
    ExtendCompose(t, t', x, Lo(t, f, v), Lo(t, g, v), lo);
    ExtendCompose(t, t', x, Hi(t, f, v), Hi(t, g, v), hi);
    ComposeBranch(t', x, f, g, v, lo, hi, res);
  }

  lemma ComposeBranch(t: seq<Node>, x: nat, f: nat, g: nat, v: nat, lo: nat, hi: nat, res: nat)
    requires WellFormed(t) && AreComposeHalves(t, x, f, g, v, lo, hi) && IsBranch(t, v, lo, hi, res)
    ensures IsCompose(t, x, f, g, res)
  {
    Cofactors(t, f, v);
    Cofactors(t, g, v);
    hide WellFormed;
    forall env ensures Eval(t, res, env) == Eval(t, f, SetVar(env, x, Eval(t, g, env))) {
      var env' := SetVar(env, x, Eval(t, g, env));
      assert v in env' <==> v in env;
      if v in env {
        assert Eval(t, g, env) == Eval(t, Hi(t, g, v), env);
        assert Eval(t, f, env') == Eval(t, Hi(t, f, v), env');
      } else {
        assert Eval(t, g, env) == Eval(t, Lo(t, g, v), env);
        assert Eval(t, f, env') == Eval(t, Lo(t, f, v), env');
      }
    }
  }

  /** The assignment that simultaneous substitution reads f at. */
  ghost function Image(t: seq<Node>, gs: seq<nat>, env: Env): Env
    requires WellFormed(t) && forall i :: 0 <= i < |gs| ==> gs[i] < |t|
  {
    set i: nat | i < |gs| && Eval(t, gs[i], env)
  }

  /** veccompose: every variable i of f replaced by the function gs[i], all at once. */
  ghost predicate IsVecCompose(t: seq<Node>, gs: seq<nat>, f: nat, res: nat)
    requires WellFormed(t)
  {
    && f < |t| && res < |t|
    && (forall i :: 0 <= i < |gs| ==> gs[i] < |t|)
    && forall env :: Eval(t, res, env) == Eval(t, f, Image(t, gs, env))
  }

  lemma ExtendVecCompose(t: seq<Node>, t': seq<Node>, gs: seq<nat>, f: nat, res: nat)
    requires WellFormed(t) && WellFormed(t') && t <= t' && IsVecCompose(t, gs, f, res)
    ensures IsVecCompose(t', gs, f, res)
  {
    ExtendAll(t, t');
    forall env ensures Eval(t', res, env) == Eval(t', f, Image(t', gs, env)) {
      assert Image(t', gs, env) == Image(t, gs, env);
    }
  }

  /** With more variables, as long as those above the old ones are the only new entries. */
  lemma WidenVecCompose(t: seq<Node>, t': seq<Node>, gs: seq<nat>, gs': seq<nat>, f: nat, res: nat)
    requires WellFormed(t) && WellFormed(t') && Extends(t, t') && IsVecCompose(t, gs, f, res)
    requires |gs| == t[0].level && gs <= gs' && forall i :: 0 <= i < |gs'| ==> gs'[i] < |t'|
    ensures IsVecCompose(t', gs', f, res)
  {
    ExtendAll(t, t');
    forall env ensures Eval(t', res, env) == Eval(t', f, Image(t', gs', env)) {
      forall i: nat | i < t[0].level ensures i in Image(t, gs, env) <==> i in Image(t', gs', env) {
        assert gs'[i] == gs[i];
      }
      Independence(t, f, Image(t, gs, env), Image(t', gs', env));
    }
  }

  /** n is the node of the variable at level v. */
  ghost predicate IsVar(t: seq<Node>, v: nat, n: nat)
    requires WellFormed(t)
  {
    2 <= n < |t| && t[n] == Node(v, 0, 1)
  }

  lemma VarMeaning(t: seq<Node>, v: nat, n: nat, env: Env)
    requires WellFormed(t) && v < t[0].level && IsVar(t, v, n)
    ensures Eval(t, n, env) <==> v in env
  {
    Constants(t);
  }

  lemma VecComposeBelow(t: seq<Node>, gs: seq<nat>, f: nat)
    requires WellFormed(t) && f < |t| && |gs| == t[0].level
    requires forall i :: 0 <= i < |gs| ==> gs[i] < |t|
    requires forall i :: t[f].level <= i < |gs| ==> IsVar(t, i, gs[i])
    ensures IsVecCompose(t, gs, f, f)
  {
    forall env ensures Eval(t, f, env) == Eval(t, f, Image(t, gs, env)) {
      forall v | t[f].level <= v < t[0].level ensures v in env <==> v in Image(t, gs, env) {
        assert IsVar(t, v, gs[v]);
        assert Eval(t, 1, env) && !Eval(t, 0, env);
        assert Eval(t, gs[v], env) == (v in env);
      }
      Independence(t, f, env, Image(t, gs, env));
    }
  }

  lemma VecComposeStep(t: seq<Node>, gs: seq<nat>, f: nat, lo: nat, hi: nat, res: nat)
    requires WellFormed(t) && 2 <= f < |t| && InnerOk(t, f) && |gs| == t[0].level
    requires IsVecCompose(t, gs, t[f].low, lo) && IsVecCompose(t, gs, t[f].high, hi)
    requires IsIte(t, gs[t[f].level], hi, lo, res)
    ensures IsVecCompose(t, gs, f, res)
  {
  }

  /** A renaming maps each level to the level of the variable that replaces it. */
  ghost function Renamed(ren: seq<nat>, env: Env): Env {
    set i: nat | i < |ren| && ren[i] in env
  }

  /** The levels that occur in the graph below a node. */
  ghost function Support(t: seq<Node>, n: nat): set<nat>
    requires WellFormed(t) && n < |t|
    decreases t[0].level - t[n].level
  {
    if n < 2 then {}
    else
      assert InnerOk(t, n);
      {t[n].level} + Support(t, t[n].low) + Support(t, t[n].high)
  }

  lemma {:induction false} SupportBelow(t: seq<Node>, n: nat)
    requires WellFormed(t) && n < |t|
    ensures forall v :: v in Support(t, n) ==> t[n].level <= v < t[0].level
    decreases t[0].level - t[n].level
  {
    if n >= 2 {
      assert InnerOk(t, n);
      SupportBelow(t, t[n].low);
      SupportBelow(t, t[n].high);
    }
  }

  lemma {:induction false} ExtendSupport(t: seq<Node>, t': seq<Node>, n: nat)
    requires WellFormed(t) && WellFormed(t') && Extends(t, t') && n < |t|
    ensures Support(t', n) == Support(t, n)
    decreases t[0].level - t[n].level
  {
    if n >= 2 {
      assert InnerOk(t, n);
      ExtendSupport(t, t', t[n].low);
      ExtendSupport(t, t', t[n].high);
    }
  }

  ghost predicate InjectiveOn(ren: seq<nat>, vars: set<nat>) {
    forall i: nat, j: nat :: i in vars && j in vars && i < j < |ren| ==> ren[i] != ren[j]
  }

  ghost function Targets(ren: seq<nat>, vars: set<nat>): set<nat> {
    set i | i in vars && i < |ren| :: ren[i]
  }

  /** replace: f with every variable renamed. */
  ghost predicate IsReplace(t: seq<Node>, ren: seq<nat>, f: nat, res: nat)
    requires WellFormed(t)
  {
    && f < |t| && res < |t|
    && Support(t, res) <= Targets(ren, Support(t, f))
    && forall env :: Eval(t, res, env) == Eval(t, f, Renamed(ren, env))
  }

  lemma ExtendReplace(t: seq<Node>, t': seq<Node>, ren: seq<nat>, f: nat, res: nat)
    requires WellFormed(t) && WellFormed(t') && t <= t' && IsReplace(t, ren, f, res)
    ensures IsReplace(t', ren, f, res)
  {
    ExtendAll(t, t');
    ExtendSupport(t, t', f);
    ExtendSupport(t, t', res);
  }

  lemma ReplaceBelow(t: seq<Node>, ren: seq<nat>, f: nat)
    requires WellFormed(t) && f < |t| && |ren| == t[0].level
    requires forall i :: t[f].level <= i < |ren| ==> ren[i] == i
    ensures IsReplace(t, ren, f, f)
  {
    SupportBelow(t, f);
    forall v | v in Support(t, f) ensures v in Targets(ren, Support(t, f)) {
      assert ren[v] == v;
    }
    forall env ensures Eval(t, f, env) == Eval(t, f, Renamed(ren, env)) {
      Independence(t, f, env, Renamed(ren, env));
    }
  }

  /** correctify: the function that tests variable v and continues in l or r, wherever v belongs in
      the order relative to l and r. */
  ghost predicate IsSelect(t: seq<Node>, v: nat, l: nat, r: nat, res: nat)
    requires WellFormed(t)
  {
    && l < |t| && r < |t| && res < |t|
    && Min(v, Min(t[l].level, t[r].level)) <= t[res].level
    && Support(t, res) <= {v} + Support(t, l) + Support(t, r)
    && forall env :: Eval(t, res, env) == if v in env then Eval(t, r, env) else Eval(t, l, env)
  }

  lemma ExtendSelect(t: seq<Node>, t': seq<Node>, v: nat, l: nat, r: nat, res: nat)
    requires WellFormed(t) && WellFormed(t') && t <= t' && IsSelect(t, v, l, r, res)
    ensures IsSelect(t', v, l, r, res)
  {
    ExtendAll(t, t');
    ExtendSupport(t, t', l);
    ExtendSupport(t, t', r);
    ExtendSupport(t, t', res);
  }

  lemma BranchSupport(t: seq<Node>, v: nat, lo: nat, hi: nat, res: nat)
    requires WellFormed(t) && IsBranch(t, v, lo, hi, res)
    requires if lo == hi then res == lo else 2 <= res && t[res] == Node(v, lo, hi)
    ensures Support(t, res) <= {v} + Support(t, lo) + Support(t, hi)
  {
    LevelBound(t, res);
  }

  ghost predicate AreSelectHalves(t: seq<Node>, v: nat, l: nat, r: nat, w: nat, lo: nat, hi: nat)
    requires WellFormed(t)
  {
    && l < |t| && r < |t|
    && w == Min(t[l].level, t[r].level) < v && w < t[0].level
    && IsSelect(t, v, Lo(t, l, w), Lo(t, r, w), lo)
    && IsSelect(t, v, Hi(t, l, w), Hi(t, r, w), hi)
  }

  lemma SelectHalves(t1: seq<Node>, t: seq<Node>, v: nat, l: nat, r: nat, w: nat, lo: nat, hi: nat)
    requires WellFormed(t1) && WellFormed(t) && t1 <= t && l < |t1| && r < |t1|
    requires w == Min(t1[l].level, t1[r].level) < v && w < t1[0].level
    requires IsSelect(t1, v, Lo(t1, l, w), Lo(t1, r, w), lo)
    requires IsSelect(t, v, Hi(t1, l, w), Hi(t1, r, w), hi)
    ensures AreSelectHalves(t, v, l, r, w, lo, hi)
    ensures lo < |t| && w < t[lo].level && hi < |t| && w < t[hi].level
  {
    ExtendSelect(t1, t, v, Lo(t1, l, w), Lo(t1, r, w), lo);
    Cofactors(t1, l, w);
    Cofactors(t1, r, w);
  }

  lemma SelectStep(t: seq<Node>, t': seq<Node>, v: nat, l: nat, r: nat, w: nat, lo: nat, hi: nat, res: nat)
    requires WellFormed(t) && WellFormed(t') && t <= t'
    requires AreSelectHalves(t, v, l, r, w, lo, hi)
    requires IsBranch(t', w, lo, hi, res)
    requires if lo == hi then res == lo else 2 <= res && t'[res] == Node(w, lo, hi)
    ensures IsSelect(t', v, l, r, res)
  {
    hide WellFormed, IsSelect, IsBranch;
    ExtendSelect(t, t', v, Lo(t, l, w), Lo(t, r, w), lo);
    ExtendSelect(t, t', v, Hi(t, l, w), Hi(t, r, w), hi);
    BranchSupport(t', w, lo, hi, res);
    SelectBranch(t', v, l, r, w, lo, hi, res);
  }

  lemma SelectBranch(t: seq<Node>, v: nat, l: nat, r: nat, w: nat, lo: nat, hi: nat, res: nat)
    requires WellFormed(t) && AreSelectHalves(t, v, l, r, w, lo, hi) && IsBranch(t, w, lo, hi, res)
    requires Support(t, res) <= {w} + Support(t, lo) + Support(t, hi)
    ensures IsSelect(t, v, l, r, res)
  {
    hide WellFormed, Support;
    Cofactors(t, l, w);
    Cofactors(t, r, w);
    CofactorSupport(t, l, w);
    CofactorSupport(t, r, w);
    var all := {v} + Support(t, l) + Support(t, r);
    assert Support(t, lo) <= all && Support(t, hi) <= all && w in all;
    forall env ensures Eval(t, res, env) == if v in env then Eval(t, r, env) else Eval(t, l, env) {
      if w in env {
        assert Eval(t, res, env) == Eval(t, hi, env);
      } else {
        assert Eval(t, res, env) == Eval(t, lo, env);
      }
    }
  }

  lemma CofactorSupport(t: seq<Node>, n: nat, v: nat)
    requires WellFormed(t) && n < |t| && v <= t[n].level && v < t[0].level
    ensures Lo(t, n, v) < |t| && Support(t, Lo(t, n, v)) <= Support(t, n)
    ensures Hi(t, n, v) < |t| && Support(t, Hi(t, n, v)) <= Support(t, n)
    ensures v == t[n].level ==> v in Support(t, n)
  {
    LevelBound(t, n);
  }

  ghost predicate AreReplaceHalves(t: seq<Node>, ren: seq<nat>, f: nat, lo: nat, hi: nat)
    requires WellFormed(t)
  {
    && 2 <= f < |t| && InnerOk(t, f)
    && IsReplace(t, ren, t[f].low, lo) && IsReplace(t, ren, t[f].high, hi)
  }

  lemma ReplaceHalves(t1: seq<Node>, t: seq<Node>, ren: seq<nat>, f: nat, lo: nat, hi: nat)
    requires WellFormed(t1) && WellFormed(t) && t1 <= t && 2 <= f < |t1|
    requires IsReplace(t1, ren, t1[f].low, lo) && IsReplace(t, ren, t1[f].high, hi)
    ensures AreReplaceHalves(t, ren, f, lo, hi)
    ensures lo < |t| && hi < |t|
  {
    LevelBound(t, f);
    ExtendReplace(t1, t, ren, t1[f].low, lo);
  }

  lemma ReplaceStep(t: seq<Node>, t': seq<Node>, ren: seq<nat>, f: nat, lo: nat, hi: nat, res: nat)
    requires WellFormed(t) && WellFormed(t') && t <= t' && |ren| == t[0].level
    requires AreReplaceHalves(t, ren, f, lo, hi)
    requires IsSelect(t', ren[t[f].level], lo, hi, res)
    ensures IsReplace(t', ren, f, res)
  {
    LevelBound(t', f);
    ExtendReplace(t, t', ren, t[f].low, lo);
    ExtendReplace(t, t', ren, t[f].high, hi);
    var s := Support(t', f);
    assert t[f].level in s;
    assert Support(t', t[f].low) <= s && Support(t', t[f].high) <= s;
  }

  /** correctify finds a place for variable v: it is a variable, and neither operand tests it. */
  ghost predicate Fits(t: seq<Node>, v: nat, l: nat, r: nat)
    requires WellFormed(t) && l < |t| && r < |t|
  {
    v < t[0].level && v !in Support(t, l) && v !in Support(t, r)
  }

  lemma ExtendFits(t: seq<Node>, t': seq<Node>, v: nat, l: nat, r: nat)
    requires WellFormed(t) && WellFormed(t') && t <= t' && l < |t| && r < |t|
    ensures Fits(t', v, l, r) <==> Fits(t, v, l, r)
  {
    ExtendSupport(t, t', l);
    ExtendSupport(t, t', r);
  }

  /** Above both operands it fits, at the level of one of them it does not. */
  lemma FitsAtTop(t: seq<Node>, v: nat, l: nat, r: nat)
    requires WellFormed(t) && l < |t| && r < |t| && v <= t[0].level
    ensures v < t[l].level && v < t[r].level ==> Fits(t, v, l, r)
    ensures v == t[l].level || v == t[r].level ==> !Fits(t, v, l, r)
  {
    LevelBound(t, l);
    LevelBound(t, r);
    SupportBelow(t, l);
    SupportBelow(t, r);
  }

  /** Below another variable it fits if it fits in both halves. */
  lemma FitsInHalves(t: seq<Node>, v: nat, l: nat, r: nat, w: nat)
    requires WellFormed(t) && l < |t| && r < |t| && v != w
    requires w == Min(t[l].level, t[r].level) < t[0].level
    ensures Lo(t, l, w) < |t| && Lo(t, r, w) < |t| && Hi(t, l, w) < |t| && Hi(t, r, w) < |t|
    ensures Fits(t, v, l, r) <==> Fits(t, v, Lo(t, l, w), Lo(t, r, w)) && Fits(t, v, Hi(t, l, w), Hi(t, r, w))
  {
    LevelBound(t, l);
    LevelBound(t, r);
  }

  /** Renamed, the node depends on variable x. */
  ghost predicate DependsOn(t: seq<Node>, ren: seq<nat>, f: nat, x: nat)
    requires WellFormed(t) && f < |t|
  {
    exists env :: Differs(t, ren, f, x, env)
  }

  ghost predicate Differs(t: seq<Node>, ren: seq<nat>, f: nat, x: nat, env: Env)
    requires WellFormed(t) && f < |t|
  {
    Eval(t, f, Renamed(ren, env + {x})) != Eval(t, f, Renamed(ren, env - {x}))
  }

  /** The variable of n is to become a constant, or a variable that a child still depends on. */
  ghost predicate CollidesAt(t: seq<Node>, ren: seq<nat>, n: nat)
    requires WellFormed(t) && 2 <= n < |t| && InnerOk(t, n) && t[n].level < |ren|
  {
    var x := ren[t[n].level];
    x >= t[0].level || DependsOn(t, ren, t[n].low, x) || DependsOn(t, ren, t[n].high, x)
  }

  /** Some node from f down collides. */
  ghost predicate Collides(t: seq<Node>, ren: seq<nat>, f: nat)
    requires WellFormed(t) && f < |t| && |ren| == t[0].level
    decreases t[0].level - t[f].level
  {
    if f < 2 then false
    else
      assert InnerOk(t, f);
      CollidesAt(t, ren, f) || Collides(t, ren, t[f].low) || Collides(t, ren, t[f].high)
  }

  lemma ExtendDependsOn(t: seq<Node>, t': seq<Node>, ren: seq<nat>, f: nat, x: nat)
    requires WellFormed(t) && WellFormed(t') && t <= t' && f < |t|
    ensures DependsOn(t', ren, f, x) <==> DependsOn(t, ren, f, x)
  {
    forall env ensures Differs(t', ren, f, x, env) <==> Differs(t, ren, f, x, env) {
      ExtendEval(t, t', f, Renamed(ren, env + {x}));
      ExtendEval(t, t', f, Renamed(ren, env - {x}));
    }
  }

  lemma {:induction false} ExtendCollides(t: seq<Node>, t': seq<Node>, ren: seq<nat>, f: nat)
    requires WellFormed(t) && WellFormed(t') && t <= t' && f < |t| && |ren| == t[0].level
    ensures Collides(t', ren, f) <==> Collides(t, ren, f)
    decreases t[0].level - t[f].level
  {
    if f >= 2 {
      LevelBound(t, f);
      LevelBound(t', f);
      ExtendDependsOn(t, t', ren, t[f].low, ren[t[f].level]);
      ExtendDependsOn(t, t', ren, t[f].high, ren[t[f].level]);
      ExtendCollides(t, t', ren, t[f].low);
      ExtendCollides(t, t', ren, t[f].high);
    }
  }

  /** A node ignores what it does not test, and depends on what it tests. */
  lemma {:induction false} SupportDepends(t: seq<Node>, n: nat, v: nat)
    requires WellFormed(t) && n < |t|
    ensures v in Support(t, n) <==> !CareSet.Ignores(t, n, v)
    decreases t[0].level - t[n].level
  {
    if n >= 2 {
      LevelBound(t, n);
      SupportDepends(t, t[n].low, v);
      SupportDepends(t, t[n].high, v);
      if CareSet.Ignores(t, n, v) {
        CareSet.ChildrenIgnore(t, n, v);
      }
    }
  }

  /** The variables that a renamed node tests are those that it depends on. */
  lemma RenamedSupport(t: seq<Node>, ren: seq<nat>, f: nat, res: nat, x: nat)
    requires WellFormed(t) && IsReplace(t, ren, f, res)
    ensures f < |t| && res < |t| && (x in Support(t, res) <==> DependsOn(t, ren, f, x))
  {
    SupportDepends(t, res, x);
    forall env ensures Eval(t, res, env + {x}) == Eval(t, f, Renamed(ren, env + {x}))
      && Eval(t, res, env - {x}) == Eval(t, f, Renamed(ren, env - {x})) {
    }
    if env :| Differs(t, ren, f, x, env) {
      assert Eval(t, res, env + {x}) != Eval(t, res, env - {x});
    }
    if !CareSet.Ignores(t, res, x) {
      var env :| Eval(t, res, env + {x}) != Eval(t, res, env - {x});
      assert Differs(t, ren, f, x, env);
    }
  }

  /** The renamed variable fits on top of the renamed children exactly when the node does not collide. */
  lemma FitsUnlessCollides(t: seq<Node>, ren: seq<nat>, f: nat, lo: nat, hi: nat)
    requires WellFormed(t) && |ren| == t[0].level && AreReplaceHalves(t, ren, f, lo, hi) && lo < |t| && hi < |t|
    ensures t[f].level < |ren| && (Fits(t, ren[t[f].level], lo, hi) <==> !CollidesAt(t, ren, f))
  {
    RenamedSupport(t, ren, t[f].low, lo, ren[t[f].level]);
    RenamedSupport(t, ren, t[f].high, hi, ren[t[f].level]);
  }

  lemma CollidesUnfold(t: seq<Node>, ren: seq<nat>, f: nat)
    requires WellFormed(t) && f < |t| && |ren| == t[0].level
    ensures f < 2 ==> !Collides(t, ren, f)
    ensures f >= 2 ==> InnerOk(t, f) && t[f].level < |ren|
    ensures f >= 2 ==>
      (Collides(t, ren, f) <==> CollidesAt(t, ren, f) || Collides(t, ren, t[f].low) || Collides(t, ren, t[f].high))
  {
    LevelBound(t, f);
  }

  /** Where nothing is renamed, nothing collides. */
  lemma {:induction false} IdentityFits(t: seq<Node>, ren: seq<nat>, f: nat)
    requires WellFormed(t) && f < |t| && |ren| == t[0].level
    requires forall i :: t[f].level <= i < |ren| ==> ren[i] == i
    ensures !Collides(t, ren, f)
    decreases t[0].level - t[f].level
  {
    CollidesUnfold(t, ren, f);
    if f >= 2 {
      var v := t[f].level;
      IdentityFits(t, ren, t[f].low);
      IdentityFits(t, ren, t[f].high);
      forall env ensures !Differs(t, ren, t[f].low, v, env) && !Differs(t, ren, t[f].high, v, env) {
        var e1, e2 := Renamed(ren, env + {v}), Renamed(ren, env - {v});
        assert Agree(e1, e2, v + 1, t[0].level);
        Independence(t, t[f].low, e1, e2);
        Independence(t, t[f].high, e1, e2);
      }
    }
  }

  /** Only the variables that are tested matter. */
  lemma {:induction false} SupportDecides(t: seq<Node>, n: nat, e1: Env, e2: Env)
    requires WellFormed(t) && n < |t|
    requires forall v :: v in Support(t, n) ==> (v in e1 <==> v in e2)
    ensures Eval(t, n, e1) == Eval(t, n, e2)
    decreases t[0].level - t[n].level
  {
    if n >= 2 {
      LevelBound(t, n);
      SupportDecides(t, t[n].low, e1, e2);
      SupportDecides(t, t[n].high, e1, e2);
    }
  }

  /** ren' is ren for more variables: what became a variable still does, what became a constant too. */
  ghost predicate Wider(t: seq<Node>, t': seq<Node>, ren: seq<nat>, ren': seq<nat>)
    requires WellFormed(t) && WellFormed(t')
  {
    && |ren| == t[0].level && |ren'| == t'[0].level && Extends(t, t')
    && forall i :: 0 <= i < |ren| ==> ren'[i] == if ren[i] < t[0].level then ren[i] else t'[0].level
  }

  /** Where nothing collides every variable becomes a variable. */
  lemma {:induction false} FitsBelow(t: seq<Node>, ren: seq<nat>, f: nat)
    requires WellFormed(t) && f < |t| && |ren| == t[0].level && !Collides(t, ren, f)
    ensures forall v :: v in Support(t, f) ==> v < |ren| && ren[v] < t[0].level
    decreases t[0].level - t[f].level
  {
    CollidesUnfold(t, ren, f);
    if f >= 2 {
      FitsBelow(t, ren, t[f].low);
      FitsBelow(t, ren, t[f].high);
    }
  }

  /** There the two renamings read f alike. */
  lemma WiderReads(t: seq<Node>, t': seq<Node>, ren: seq<nat>, ren': seq<nat>, f: nat, env: Env)
    requires WellFormed(t) && WellFormed(t') && Wider(t, t', ren, ren') && f < |t| && !Collides(t, ren, f)
    ensures Eval(t', f, Renamed(ren', env)) == Eval(t, f, Renamed(ren, env))
  {
    FitsBelow(t, ren, f);
    SupportDecides(t, f, Renamed(ren', env), Renamed(ren, env));
    ExtendEval(t, t', f, Renamed(ren', env));
  }

  lemma WiderDepends(t: seq<Node>, t': seq<Node>, ren: seq<nat>, ren': seq<nat>, f: nat, x: nat)
    requires WellFormed(t) && WellFormed(t') && Wider(t, t', ren, ren') && f < |t| && !Collides(t, ren, f)
    ensures DependsOn(t', ren', f, x) <==> DependsOn(t, ren, f, x)
  {
    forall env ensures Differs(t', ren', f, x, env) <==> Differs(t, ren, f, x, env) {
      WiderReads(t, t', ren, ren', f, env + {x});
      WiderReads(t, t', ren, ren', f, env - {x});
    }
  }

  lemma {:induction false} WidenCollides(t: seq<Node>, t': seq<Node>, ren: seq<nat>, ren': seq<nat>, f: nat)
    requires WellFormed(t) && WellFormed(t') && Wider(t, t', ren, ren') && f < |t| && !Collides(t, ren, f)
    ensures !Collides(t', ren', f)
    decreases t[0].level - t[f].level
  {
    CollidesUnfold(t, ren, f);
    CollidesUnfold(t', ren', f);
    if f >= 2 {
      WidenCollides(t, t', ren, ren', t[f].low);
      WidenCollides(t, t', ren, ren', t[f].high);
      WiderDepends(t, t', ren, ren', t[f].low, ren[t[f].level]);
      WiderDepends(t, t', ren, ren', t[f].high, ren[t[f].level]);
    }
  }

  /** A renaming that succeeded stays right when there are more variables. */
  lemma WidenReplace(t: seq<Node>, t': seq<Node>, ren: seq<nat>, ren': seq<nat>, f: nat, res: nat)
    requires WellFormed(t) && WellFormed(t') && Wider(t, t', ren, ren')
    requires f < |t| && !Collides(t, ren, f) && IsReplace(t, ren, f, res)
    ensures !Collides(t', ren', f) && IsReplace(t', ren', f, res)
  {
    WidenCollides(t, t', ren, ren', f);
    FitsBelow(t, ren, f);
    ExtendSupport(t, t', f);
    ExtendSupport(t, t', res);
    forall x | x in Targets(ren, Support(t, f)) ensures x in Targets(ren', Support(t', f)) {
      var i :| i in Support(t, f) && i < |ren| && ren[i] == x;
      assert ren'[i] == x;
    }
    forall env ensures Eval(t', res, env) == Eval(t', f, Renamed(ren', env)) {
      ExtendEval(t, t', res, env);
      WiderReads(t, t', ren, ren', f, env);
    }
  }

  /** If renamed f depends on x, some variable of f is renamed to x. */
  lemma DependsOnTarget(t: seq<Node>, ren: seq<nat>, f: nat, x: nat)
    requires WellFormed(t) && f < |t| && |ren| == t[0].level && DependsOn(t, ren, f, x)
    ensures x in Targets(ren, Support(t, f))
  {
    var env :| Differs(t, ren, f, x, env);
    SupportBelow(t, f);
    if x !in Targets(ren, Support(t, f)) {
      SupportDecides(t, f, Renamed(ren, env + {x}), Renamed(ren, env - {x}));
    }
  }

  /** A renaming that is injective on the variables of f, and makes none of them a constant, does not
      collide. */
  lemma {:induction false} InjectiveFits(t: seq<Node>, ren: seq<nat>, f: nat)
    requires WellFormed(t) && f < |t| && |ren| == t[0].level && InjectiveOn(ren, Support(t, f))
    requires forall v :: v in Support(t, f) && v < |ren| ==> ren[v] < t[0].level
    ensures !Collides(t, ren, f)
    decreases t[0].level - t[f].level
  {
    CollidesUnfold(t, ren, f);
    if f >= 2 {
      InjectiveBelow(t, ren, f);
      InjectiveFits(t, ren, t[f].low);
      InjectiveFits(t, ren, t[f].high);
      NoCollision(t, ren, f);
    }
  }

  /** Under an injective renaming no two levels meet, so no renamed child depends on the renamed top
      variable. */
  lemma NoCollision(t: seq<Node>, ren: seq<nat>, f: nat)
    requires WellFormed(t) && 2 <= f < |t| && InnerOk(t, f) && |ren| == t[0].level && InjectiveOn(ren, Support(t, f))
    ensures !DependsOn(t, ren, t[f].low, ren[t[f].level]) && !DependsOn(t, ren, t[f].high, ren[t[f].level])
  {
    var v := t[f].level;
    SupportBelow(t, t[f].low);
    SupportBelow(t, t[f].high);
    forall i | i in Support(t, t[f].low) + Support(t, t[f].high) ensures ren[i] != ren[v] {
      assert v in Support(t, f) && i in Support(t, f) && v < i;
    }
    if DependsOn(t, ren, t[f].low, ren[v]) { DependsOnTarget(t, ren, t[f].low, ren[v]); }
    if DependsOn(t, ren, t[f].high, ren[v]) { DependsOnTarget(t, ren, t[f].high, ren[v]); }
  }

  lemma InjectiveBelow(t: seq<Node>, ren: seq<nat>, f: nat)
    requires WellFormed(t) && 2 <= f < |t| && InnerOk(t, f) && InjectiveOn(ren, Support(t, f))
    ensures InjectiveOn(ren, Support(t, t[f].low)) && InjectiveOn(ren, Support(t, t[f].high))
    ensures Support(t, t[f].low) <= Support(t, f) && Support(t, t[f].high) <= Support(t, f)
  {
    assert Support(t, t[f].low) <= Support(t, f) && Support(t, t[f].high) <= Support(t, f);
  }

  /** A renaming that is not injective need not fail, and need not succeed.  With x1 and x2 both becoming x1,
      the node in which x0 chooses between them is renamed, since no path tests both; their conjunction is
      not. */
  lemma NotInjective(t: seq<Node>, ren: seq<nat>, x1: nat, x2: nat, choice: nat, both: nat)
    requires WellFormed(t) && t[0].level == 3 && ren == [0, 1, 1] && IsVar(t, 1, x1) && IsVar(t, 2, x2)
    requires 2 <= choice < |t| && t[choice] == Node(0, x2, x1) && 2 <= both < |t| && t[both] == Node(1, 0, x2)
    ensures !InjectiveOn(ren, Support(t, choice)) && !Collides(t, ren, choice)
    ensures !InjectiveOn(ren, Support(t, both)) && Collides(t, ren, both)
  {
    hide Renamed, Eval, WellFormed, Collides, Differs;
    RenamedVariable(t, ren, 1, x1);
    RenamedVariable(t, ren, 2, x2);
    CollidesUnfold(t, ren, choice);
    CollidesUnfold(t, ren, both);
    assert Differs(t, ren, x2, 1, {});
    assert {1, 2} <= Support(t, choice) && {1, 2} <= Support(t, both);
  }

  /** A single variable is renamed without a collision, and depends on its image alone. */
  lemma RenamedVariable(t: seq<Node>, ren: seq<nat>, v: nat, x: nat)
    requires WellFormed(t) && |ren| == t[0].level && IsVar(t, v, x) && v < |ren| && ren[v] < t[0].level
    ensures !Collides(t, ren, x) && v in Support(t, x)
    ensures forall y: nat, env :: Differs(t, ren, x, y, env) <==> y == ren[v]
  {
    LevelBound(t, x);
    VariableFits(t, ren, x);
    forall y: nat, env ensures Differs(t, ren, x, y, env) <==> y == ren[v] {
      VarMeaning(t, v, x, Renamed(ren, env + {y}));
      VarMeaning(t, v, x, Renamed(ren, env - {y}));
    }
  }

  lemma VariableFits(t: seq<Node>, ren: seq<nat>, x: nat)
    requires WellFormed(t) && |ren| == t[0].level && 2 <= x < |t| && t[x].low == 0 && t[x].high == 1
    requires InnerOk(t, x) && ren[t[x].level] < t[0].level
    ensures !Collides(t, ren, x)
  {
    Constants(t);
    CollidesUnfold(t, ren, x);
    CollidesUnfold(t, ren, 0);
    CollidesUnfold(t, ren, 1);
    forall env, v ensures !Differs(t, ren, 0, v, env) && !Differs(t, ren, 1, v, env) {
    }
  }

  /** The variables a restriction sets to true, and to false: the walk follows the high edge where
      the low child is false, and the low edge otherwise. */
  ghost function PosVars(t: seq<Node>, n: nat): set<nat>
    requires WellFormed(t) && n < |t|
    decreases t[0].level - t[n].level
  {
    if n < 2 then {}
    else
      assert InnerOk(t, n);
      if t[n].low == 0 then {t[n].level} + PosVars(t, t[n].high) else PosVars(t, t[n].low)
  }

  ghost function NegVars(t: seq<Node>, n: nat): set<nat>
    requires WellFormed(t) && n < |t|
    decreases t[0].level - t[n].level
  {
    if n < 2 then {}
    else
      assert InnerOk(t, n);
      if t[n].low == 0 then NegVars(t, t[n].high) else {t[n].level} + NegVars(t, t[n].low)
  }

  /** A conjunction of variables and negated variables. */
  ghost predicate IsLiteralCube(t: seq<Node>, n: nat)
    requires WellFormed(t) && n < |t|
    decreases t[0].level - t[n].level
  {
    if n < 2 then n == 1
    else
      assert InnerOk(t, n);
      if t[n].low == 0 then IsLiteralCube(t, t[n].high)
      else t[n].high == 0 && IsLiteralCube(t, t[n].low)
  }

  lemma {:induction false} LiteralCubeMeaning(t: seq<Node>, n: nat, env: Env)
    requires WellFormed(t) && n < |t| && IsLiteralCube(t, n)
    ensures Eval(t, n, env) <==> PosVars(t, n) <= env && NegVars(t, n) !! env
    decreases t[0].level - t[n].level
  {
    if n >= 2 {
      assert InnerOk(t, n);
      LiteralCubeMeaning(t, if t[n].low == 0 then t[n].high else t[n].low, env);
    }
  }

  lemma {:induction false} LiteralsBelow(t: seq<Node>, n: nat)
    requires WellFormed(t) && n < |t|
    ensures forall v :: v in PosVars(t, n) ==> t[n].level <= v < t[0].level
    ensures forall v :: v in NegVars(t, n) ==> t[n].level <= v < t[0].level
    ensures PosVars(t, n) !! NegVars(t, n)
    decreases t[0].level - t[n].level
  {
    if n >= 2 {
      assert InnerOk(t, n);
      if t[n].low == 0 {
        LiteralsBelow(t, t[n].high);
      } else {
        LiteralsBelow(t, t[n].low);
      }
    }
  }

  lemma {:induction false} ExtendLiterals(t: seq<Node>, t': seq<Node>, n: nat)
    requires WellFormed(t) && WellFormed(t') && Extends(t, t') && n < |t|
    ensures PosVars(t', n) == PosVars(t, n) && NegVars(t', n) == NegVars(t, n)
    decreases t[0].level - t[n].level
  {
    if n >= 2 {
      assert InnerOk(t, n);
      ExtendLiterals(t, t', if t[n].low == 0 then t[n].high else t[n].low);
    }
  }

  /** restrict: the variables of pos read as true, those of neg as false. */
  ghost predicate IsRestrict(t: seq<Node>, pos: set<nat>, neg: set<nat>, r: nat, res: nat)
    requires WellFormed(t)
  {
    && r < |t| && res < |t|
    && t[r].level <= t[res].level
    && forall env :: Eval(t, res, env) == Eval(t, r, (env - neg) + pos)
  }

  lemma ExtendRestrict(t: seq<Node>, t': seq<Node>, pos: set<nat>, neg: set<nat>, r: nat, res: nat)
    requires WellFormed(t) && WellFormed(t') && Extends(t, t') && IsRestrict(t, pos, neg, r, res)
    ensures IsRestrict(t', pos, neg, r, res)
  {
    ExtendLevels(t, t', r, res);
    ExtendAll(t, t');
  }

  lemma RestrictStep(t: seq<Node>, pos: set<nat>, neg: set<nat>, r: nat, lo: nat, hi: nat, res: nat)
    requires WellFormed(t) && 2 <= r < |t| && InnerOk(t, r) && pos !! neg
    requires t[r].level !in neg ==> IsRestrict(t, pos, neg, t[r].high, hi)
    requires t[r].level !in pos ==> IsRestrict(t, pos, neg, t[r].low, lo)
    requires if t[r].level in pos then res == hi
             else if t[r].level in neg then res == lo
             else IsBranch(t, t[r].level, lo, hi, res)
    ensures IsRestrict(t, pos, neg, r, res)
  {
  }
}
