/** Generalized cofactors: what a node may become when only a care set of assignments matters. */
module CareSet {
  import opened Table
  import opened Meaning

  /** The assignment of the care set c that is reached from env by turning, at each node of c that
      leaves only one way to satisfy it, towards that way. */
  ghost function Project(t: seq<Node>, c: nat, env: Env): Env
    requires WellFormed(t) && 0 < c < |t|
    decreases t[0].level - t[c].level
  {
    if c < 2 then env
    else
      assert InnerOk(t, c);
      var v := t[c].level;
      if t[c].low == 0 then Project(t, t[c].high, env + {v})
      else if t[c].high == 0 then Project(t, t[c].low, env - {v})
      else if v in env then Project(t, t[c].high, env)
      else Project(t, t[c].low, env)
  }

  /** Projecting lands in the care set, and moves only assignments outside it. */
  lemma {:induction false} ProjectInside(t: seq<Node>, c: nat, env: Env)
    requires WellFormed(t) && 0 < c < |t|
    ensures Eval(t, c, Project(t, c, env))
    ensures Eval(t, c, env) ==> Project(t, c, env) == env
    decreases t[0].level - t[c].level
  {
    if c >= 2 {
      assert InnerOk(t, c);
      var v := t[c].level;
      if t[c].low == 0 {
        ProjectInside(t, t[c].high, env + {v});
        ProjectKeeps(t, t[c].high, env + {v}, v);
        if Eval(t, c, env) {
          assert !Eval(t, 0, env) && v in env;
          assert env + {v} == env;
        }
      } else if t[c].high == 0 {
        ProjectInside(t, t[c].low, env - {v});
        ProjectKeeps(t, t[c].low, env - {v}, v);
        if Eval(t, c, env) {
          assert !Eval(t, 0, env) && v !in env;
          assert env - {v} == env;
        }
      } else if v in env {
        ProjectInside(t, t[c].high, env);
        ProjectKeeps(t, t[c].high, env, v);
      } else {
        ProjectInside(t, t[c].low, env);
        ProjectKeeps(t, t[c].low, env, v);
      }
    }
  }

  lemma {:induction false} ProjectKeeps(t: seq<Node>, c: nat, env: Env, v: nat)
    requires WellFormed(t) && 0 < c < |t| && v < t[c].level
    ensures v in Project(t, c, env) <==> v in env
    decreases t[0].level - t[c].level
  {
    if c >= 2 {
      assert InnerOk(t, c);
      var w := t[c].level;
      if t[c].low == 0 {
        ProjectKeeps(t, t[c].high, env + {w}, v);
      } else if t[c].high == 0 {
        ProjectKeeps(t, t[c].low, env - {w}, v);
      } else if w in env {
        ProjectKeeps(t, t[c].high, env, v);
      } else {
        ProjectKeeps(t, t[c].low, env, v);
      }
    }
  }

  lemma {:induction false} ProjectAgree(t: seq<Node>, c: nat, e1: Env, e2: Env, from: nat)
    requires WellFormed(t) && 0 < c < |t| && from <= t[c].level
    requires Agree(e1, e2, from, t[0].level)
    ensures Agree(Project(t, c, e1), Project(t, c, e2), from, t[0].level)
    decreases t[0].level - t[c].level
  {
    if c >= 2 {
      assert InnerOk(t, c);
      var w := t[c].level;
      if t[c].low == 0 {
        ProjectAgree(t, t[c].high, e1 + {w}, e2 + {w}, from);
      } else if t[c].high == 0 {
        ProjectAgree(t, t[c].low, e1 - {w}, e2 - {w}, from);
      } else if w in e1 {
        ProjectAgree(t, t[c].high, e1, e2, from);
      } else {
        ProjectAgree(t, t[c].low, e1, e2, from);
      }
    }
  }

  lemma {:induction false} ExtendProject(t: seq<Node>, t': seq<Node>, c: nat, env: Env)
    requires WellFormed(t) && WellFormed(t') && Extends(t, t') && 0 < c < |t|
    ensures Project(t', c, env) == Project(t, c, env)
    decreases t[0].level - t[c].level
  {
    if c >= 2 {
      assert InnerOk(t, c);
      var v := t[c].level;
      if t[c].low == 0 {
        ExtendProject(t, t', t[c].high, env + {v});
      } else if t[c].high == 0 {
        ExtendProject(t, t', t[c].low, env - {v});
      } else if v in env {
        ExtendProject(t, t', t[c].high, env);
      } else {
        ExtendProject(t, t', t[c].low, env);
      }
    }
  }

  /** constrain: f read at the projection onto the care set; an empty care set gives the constant
      false, unless f is a constant already. */
  ghost predicate IsConstrain(t: seq<Node>, f: nat, c: nat, res: nat)
    requires WellFormed(t)
  {
    && f < |t| && c < |t| && res < |t|
    && Min(t[f].level, t[c].level) <= t[res].level
    && (c == 0 ==> res == if f < 2 then f else 0)
    && (c != 0 ==> forall env :: Eval(t, res, env) == Eval(t, f, Project(t, c, env)))
  }

  /** What a caller of constrain relies on: nothing changes inside the care set. */
  lemma ConstrainAgrees(t: seq<Node>, f: nat, c: nat, res: nat, env: Env)
    requires WellFormed(t) && IsConstrain(t, f, c, res)
    requires Eval(t, c, env)
    ensures Eval(t, res, env) == Eval(t, f, env)
  {
    ProjectInside(t, c, env);
  }

  lemma ExtendConstrain(t: seq<Node>, t': seq<Node>, f: nat, c: nat, res: nat)
    requires WellFormed(t) && WellFormed(t') && Extends(t, t') && IsConstrain(t, f, c, res)
    ensures IsConstrain(t', f, c, res)
  {
    ExtendLevels(t, t', f, res);
    ExtendLevels(t, t', c, res);
    if c != 0 {
      forall env ensures Eval(t', res, env) == Eval(t', f, Project(t', c, env)) {
        ExtendProject(t, t', c, env);
        ExtendEval(t, t', res, env);
        ExtendEval(t, t', f, Project(t, c, env));
      }
    }
  }

  /** The cases that end the recursion of constrain. */
  lemma ConstrainBase(t: seq<Node>, f: nat, c: nat)
    requires WellFormed(t) && f < |t| && c < |t|
    ensures c == 1 || f < 2 ==> IsConstrain(t, f, c, f)
    ensures c == f && 2 <= f ==> IsConstrain(t, f, c, 1)
    ensures c == 0 && 2 <= f ==> IsConstrain(t, f, c, 0)
  {
    LevelBound(t, f);
    LevelBound(t, c);
    if c == f && c != 0 {
      forall env ensures Eval(t, f, Project(t, c, env)) {
        ProjectInside(t, c, env);
      }
    }
  }

  /** The care set forces the variable at its top: only that side of f survives. */
  lemma ConstrainForced(t: seq<Node>, f: nat, c: nat, v: nat, res: nat)
    requires WellFormed(t) && f < |t| && 2 <= c < |t|
    requires v == t[c].level <= t[f].level
    requires t[c].low == 0 || t[c].high == 0
    requires InnerOk(t, c)
    requires if t[c].low == 0 then IsConstrain(t, Hi(t, f, v), t[c].high, res)
             else IsConstrain(t, Lo(t, f, v), t[c].low, res)
    ensures IsConstrain(t, f, c, res)
  {
    LevelBound(t, f);
    LevelBound(t, c);
    Cofactors(t, f, v);
    forall env ensures Eval(t, res, env) == Eval(t, f, Project(t, c, env)) {
      if t[c].low == 0 {
        ProjectKeeps(t, t[c].high, env + {v}, v);
        ProjectAgree(t, t[c].high, env, env + {v}, v + 1);
        Independence(t, Hi(t, f, v), Project(t, t[c].high, env), Project(t, t[c].high, env + {v}));
      } else {
        ProjectKeeps(t, t[c].low, env - {v}, v);
        ProjectAgree(t, t[c].low, env, env - {v}, v + 1);
        Independence(t, Lo(t, f, v), Project(t, t[c].low, env), Project(t, t[c].low, env - {v}));
      }
    }
  }

  lemma ConstrainBranch(t: seq<Node>, f: nat, c: nat, v: nat, lo: nat, hi: nat, res: nat)
    requires WellFormed(t) && f < |t| && 0 < c < |t|
    requires v == Min(t[f].level, t[c].level) < t[0].level
    requires t[c].level == v ==> t[c].low != 0 && t[c].high != 0
    requires IsConstrain(t, Lo(t, f, v), Lo(t, c, v), lo)
    requires IsConstrain(t, Hi(t, f, v), Hi(t, c, v), hi)
    requires IsBranch(t, v, lo, hi, res)
    ensures IsConstrain(t, f, c, res)
  {
    LevelBound(t, c);
    Cofactors(t, f, v);
    Cofactors(t, c, v);
    forall env ensures Eval(t, res, env) == Eval(t, f, Project(t, c, env)) {
      ProjectKeeps(t, Hi(t, c, v), env, v);
      ProjectKeeps(t, Lo(t, c, v), env, v);
    }
  }

  /** Node n does not depend on variable v. */
  ghost predicate Ignores(t: seq<Node>, n: nat, v: nat)
    requires WellFormed(t) && n < |t|
  {
    forall env :: Eval(t, n, env + {v}) == Eval(t, n, env - {v})
  }

  /** Inside d, node n always has value b. */
  ghost predicate ConstantOn(t: seq<Node>, d: nat, n: nat, b: bool)
    requires WellFormed(t) && d < |t| && n < |t|
  {
    forall env :: Eval(t, d, env) ==> Eval(t, n, env) == b
  }

  /** simplify: agrees with f inside the care set d, depends on no variable f ignores, and is a
      constant whenever f is constant on a care set that is not empty. */
  ghost predicate IsSimplify(t: seq<Node>, f: nat, d: nat, res: nat)
    requires WellFormed(t)
  {
    && f < |t| && d < |t| && res < |t|
    && t[f].level <= t[res].level
    && (forall env :: Eval(t, d, env) ==> Eval(t, res, env) == Eval(t, f, env))
    && (forall v :: Ignores(t, f, v) ==> Ignores(t, res, v))
    && (d != 0 && ConstantOn(t, d, f, true) ==> res == 1)
    && (d != 0 && ConstantOn(t, d, f, false) ==> res == 0)
  }

  lemma ExtendSimplify(t: seq<Node>, t': seq<Node>, f: nat, d: nat, res: nat)
    requires WellFormed(t) && WellFormed(t') && Extends(t, t') && IsSimplify(t, f, d, res)
    ensures IsSimplify(t', f, d, res)
  {
    ExtendLevels(t, t', f, res);
    ExtendAll(t, t');
    forall v | Ignores(t', f, v) ensures Ignores(t', res, v) {
      assert Ignores(t, f, v);
    }
    if ConstantOn(t', d, f, true) { assert ConstantOn(t, d, f, true); }
    if ConstantOn(t', d, f, false) { assert ConstantOn(t, d, f, false); }
  }

  /** A node other than false is satisfied somewhere. */
  lemma Satisfiable(t: seq<Node>, n: nat) returns (env: Env)
    requires WellFormed(t) && 0 < n < |t|
    ensures Eval(t, n, env)
  {
    env := Project(t, n, {});
    ProjectInside(t, n, {});
  }

  lemma SimplifyBase(t: seq<Node>, f: nat, d: nat)
    requires WellFormed(t) && f < |t| && d < |t|
    ensures d == 1 || f < 2 ==> IsSimplify(t, f, d, f)
    ensures d == f && 2 <= f ==> IsSimplify(t, f, d, 1)
    ensures d == 0 && 2 <= f ==> IsSimplify(t, f, d, 0)
  {
    LevelBound(t, f);
    if d == 1 {
      if ConstantOn(t, d, f, true) { assert Same(t, f, 1); Canonical(t, f, 1); }
      if ConstantOn(t, d, f, false) { assert Same(t, f, 0); Canonical(t, f, 0); }
    } else if d != 0 && (f < 2 || d == f) {
      var env := Satisfiable(t, d);
    }
  }

  /** d is above f: f is simplified against d with its top variable quantified away. */
  lemma SimplifyQuantified(t: seq<Node>, f: nat, d: nat, d': nat, res: nat)
    requires WellFormed(t) && f < |t| && 2 <= d < |t| && t[d].level < t[f].level
    requires InnerOk(t, d) && IsApply(t, OR, t[d].low, t[d].high, d')
    requires IsSimplify(t, f, d', res)
    ensures IsSimplify(t, f, d, res)
  {
    var v := t[d].level;
    var inside := Satisfiable(t, d);
    assert Eval(t, d', inside);
    forall b | ConstantOn(t, d, f, b) ensures ConstantOn(t, d', f, b) {
      forall env | Eval(t, d', env) ensures Eval(t, f, env) == b {
        Above(t, f, v, env);
        Above(t, t[d].low, v, env);
        Above(t, t[d].high, v, env);
        assert Eval(t, d, env + {v}) || Eval(t, d, env - {v});
      }
    }
  }

  lemma BranchIgnores(t: seq<Node>, f: nat, v: nat, lo: nat, hi: nat, res: nat)
    requires WellFormed(t) && 2 <= f < |t| && v == t[f].level && InnerOk(t, f)
    requires lo < |t| && hi < |t|
    requires forall w :: Ignores(t, t[f].low, w) ==> Ignores(t, lo, w)
    requires forall w :: Ignores(t, t[f].high, w) ==> Ignores(t, hi, w)
    requires IsBranch(t, v, lo, hi, res)
    ensures forall w :: Ignores(t, f, w) ==> Ignores(t, res, w)
  {
    forall w | Ignores(t, f, w) ensures Ignores(t, res, w) {
      ChildrenIgnore(t, f, w);
      forall env ensures Eval(t, res, env + {w}) == Eval(t, res, env - {w}) {
        assert Eval(t, lo, env + {w}) == Eval(t, lo, env - {w});
        assert Eval(t, hi, env + {w}) == Eval(t, hi, env - {w});
      }
    }
  }

  /** An inner node depends on its own variable; what it ignores, its children ignore. */
  lemma ChildrenIgnore(t: seq<Node>, f: nat, w: nat)
    requires WellFormed(t) && 2 <= f < |t| && InnerOk(t, f) && Ignores(t, f, w)
    ensures w != t[f].level
    ensures Ignores(t, t[f].low, w) && Ignores(t, t[f].high, w)
  {
    var v := t[f].level;
    var lo, hi := t[f].low, t[f].high;
    if w == v {
      forall env ensures Eval(t, lo, env) == Eval(t, hi, env) {
        Above(t, lo, v, env);
        Above(t, hi, v, env);
        assert Eval(t, f, env + {v}) == Eval(t, f, env - {v});
      }
      assert Same(t, lo, hi);
      Canonical(t, lo, hi);
    } else {
      forall env
        ensures Eval(t, lo, env + {w}) == Eval(t, lo, env - {w})
        ensures Eval(t, hi, env + {w}) == Eval(t, hi, env - {w})
      {
        Above(t, lo, v, env + {w});
        Above(t, lo, v, env - {w});
        Above(t, hi, v, env + {w});
        Above(t, hi, v, env - {w});
        assert (env - {v}) + {w} == (env + {w}) - {v} && (env - {v}) - {w} == (env - {w}) - {v};
        assert (env + {v}) + {w} == (env + {w}) + {v} && (env + {v}) - {w} == (env - {w}) + {v};
        assert Eval(t, f, (env - {v}) + {w}) == Eval(t, f, (env - {v}) - {w});
        assert Eval(t, f, (env + {v}) + {w}) == Eval(t, f, (env + {v}) - {w});
      }
    }
  }

  /** Where f is constant on d, each cofactor of f is constant on the same cofactor of d. */
  lemma ConstantOnCofactors(t: seq<Node>, d: nat, f: nat, v: nat, b: bool)
    requires WellFormed(t) && d < |t| && f < |t|
    requires v <= t[d].level && v <= t[f].level && v < t[0].level
    requires ConstantOn(t, d, f, b)
    ensures Lo(t, d, v) < |t| && Lo(t, f, v) < |t| && ConstantOn(t, Lo(t, d, v), Lo(t, f, v), b)
    ensures Hi(t, d, v) < |t| && Hi(t, f, v) < |t| && ConstantOn(t, Hi(t, d, v), Hi(t, f, v), b)
  {
    Cofactors(t, d, v);
    Cofactors(t, f, v);
    forall env ensures Eval(t, Lo(t, d, v), env) ==> Eval(t, Lo(t, f, v), env) == b {
      Above(t, Lo(t, d, v), v, env);
      Above(t, Lo(t, f, v), v, env);
      assert Eval(t, d, env - {v}) ==> Eval(t, f, env - {v}) == b;
    }
    forall env ensures Eval(t, Hi(t, d, v), env) ==> Eval(t, Hi(t, f, v), env) == b {
      Above(t, Hi(t, d, v), v, env);
      Above(t, Hi(t, f, v), v, env);
      assert Eval(t, d, env + {v}) ==> Eval(t, f, env + {v}) == b;
    }
  }

  lemma SimplifyForced(t: seq<Node>, f: nat, d: nat, res: nat)
    requires WellFormed(t) && 2 <= f < |t| && 2 <= d < |t|
    requires t[d].level == t[f].level && InnerOk(t, d) && InnerOk(t, f)
    requires t[d].low == 0 || t[d].high == 0
    requires if t[d].low == 0 then IsSimplify(t, t[f].high, t[d].high, res)
             else IsSimplify(t, t[f].low, t[d].low, res)
    ensures IsSimplify(t, f, d, res)
  {
    var v := t[f].level;
    forall w | Ignores(t, f, w) ensures Ignores(t, res, w) {
      ChildrenIgnore(t, f, w);
    }
    if ConstantOn(t, d, f, true) { ConstantOnCofactors(t, d, f, v, true); }
    if ConstantOn(t, d, f, false) { ConstantOnCofactors(t, d, f, v, false); }
  }

  lemma SimplifyBranch(t: seq<Node>, f: nat, d: nat, lo: nat, hi: nat, res: nat)
    requires WellFormed(t) && 2 <= f < |t| && 0 < d < |t| && InnerOk(t, f)
    requires t[f].level <= t[d].level
    requires t[f].level == t[d].level ==> t[d].low != 0 && t[d].high != 0
    requires IsSimplify(t, t[f].low, Lo(t, d, t[f].level), lo)
    requires IsSimplify(t, t[f].high, Hi(t, d, t[f].level), hi)
    requires IsBranch(t, t[f].level, lo, hi, res)
    requires lo == hi ==> res == lo
    ensures IsSimplify(t, f, d, res)
  {
    var v := t[f].level;
    Cofactors(t, d, v);
    BranchIgnores(t, f, v, lo, hi, res);
    if ConstantOn(t, d, f, true) { ConstantOnCofactors(t, d, f, v, true); }
    if ConstantOn(t, d, f, false) { ConstantOnCofactors(t, d, f, v, false); }
  }
}
