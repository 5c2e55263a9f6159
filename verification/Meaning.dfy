/** What each operator of the BDD package promises about its result, as a relation between nodes of a
    table.  These relations are also what a live entry of an operator cache is worth, so each comes
    with the lemma that it survives the growth of the table. */
module Meaning {
  import opened Table

  /** Operator codes, in the order of the public header. */
  const AND := 0
  const XOR := 1
  const OR := 2
  const NAND := 3
  const NOR := 4
  const IMP := 5
  const BIIMP := 6
  const DIFF := 7
  const LESS := 8
  const INVIMP := 9
  const NOT := 10
  const SIMPLIFY := 11

  predicate IsOp(op: int) {
    AND <= op <= INVIMP
  }

  /** The documented meaning of the ten binary operators. */
  predicate Connective(op: int, a: bool, b: bool)
    requires IsOp(op)
  {
    match op
    case 0 => a && b
    case 1 => a != b
    case 2 => a || b
    case 3 => !(a && b)
    case 4 => !(a || b)
    case 5 => a ==> b
    case 6 => a <==> b
    case 7 => a && !b
    case 8 => !a && b
    case _ => b ==> a
  }

  /** How the ten operators hang together: four are the negations of others, two exchange the operands. */
  lemma ConnectiveLaws(a: bool, b: bool)
    ensures Connective(AND, a, b) <==> a && b
    ensures Connective(OR, a, b) <==> a || b
    ensures Connective(XOR, a, b) <==> a != b
    ensures Connective(IMP, a, b) <==> (a ==> b)
    ensures Connective(NAND, a, b) == !Connective(AND, a, b) && Connective(NOR, a, b) == !Connective(OR, a, b)
    ensures Connective(BIIMP, a, b) == !Connective(XOR, a, b) && Connective(DIFF, a, b) == !Connective(IMP, a, b)
    ensures Connective(LESS, a, b) == Connective(DIFF, b, a) && Connective(INVIMP, a, b) == Connective(IMP, b, a)
  {
  }

  function Min(a: nat, b: nat): nat {
    if a <= b then a else b
  }

  /** The two cofactors with respect to the variable at level v, for a node not above it. */
  function Lo(t: seq<Node>, n: nat, v: nat): nat
    requires n < |t|
  {
    if t[n].level == v then t[n].low else n
  }

  function Hi(t: seq<Node>, n: nat, v: nat): nat
    requires n < |t|
  {
    if t[n].level == v then t[n].high else n
  }

  lemma Cofactors(t: seq<Node>, n: nat, v: nat)
    requires WellFormed(t) && n < |t| && v <= t[n].level && v < t[0].level
    ensures Lo(t, n, v) < |t| && v < t[Lo(t, n, v)].level
    ensures Hi(t, n, v) < |t| && v < t[Hi(t, n, v)].level
    ensures forall env :: v in env ==> Eval(t, n, env) == Eval(t, Hi(t, n, v), env)
    ensures forall env :: v !in env ==> Eval(t, n, env) == Eval(t, Lo(t, n, v), env)
  {
    LevelBound(t, n);
  }

  /** res is the node that tests the variable at level v and continues in lo or hi. */
  ghost predicate IsBranch(t: seq<Node>, v: nat, lo: nat, hi: nat, res: nat)
    requires WellFormed(t)
  {
    && lo < |t| && hi < |t| && res < |t|
    && v <= t[res].level
    && forall env :: Eval(t, res, env) == if v in env then Eval(t, hi, env) else Eval(t, lo, env)
  }

  ghost predicate IsNot(t: seq<Node>, r: nat, res: nat)
    requires WellFormed(t)
  {
    && r < |t| && res < |t|
    && t[r].level <= t[res].level
    && forall env :: Eval(t, res, env) == !Eval(t, r, env)
  }

  ghost predicate IsApply(t: seq<Node>, op: int, l: nat, r: nat, res: nat)
    requires WellFormed(t) && IsOp(op)
  {
    && l < |t| && r < |t| && res < |t|
    && Min(t[l].level, t[r].level) <= t[res].level
    && forall env :: Eval(t, res, env) == Connective(op, Eval(t, l, env), Eval(t, r, env))
  }

  ghost predicate IsIte(t: seq<Node>, f: nat, g: nat, h: nat, res: nat)
    requires WellFormed(t)
  {
    && f < |t| && g < |t| && h < |t| && res < |t|
    && Min(t[f].level, Min(t[g].level, t[h].level)) <= t[res].level
    && forall env :: Eval(t, res, env) == if Eval(t, f, env) then Eval(t, g, env) else Eval(t, h, env)
  }

  lemma ExtendNot(t: seq<Node>, t': seq<Node>, r: nat, res: nat)
    requires WellFormed(t) && WellFormed(t') && Extends(t, t') && IsNot(t, r, res)
    ensures IsNot(t', r, res)
  {
    ExtendLevels(t, t', r, res);
    ExtendAll(t, t');
  }

  lemma ExtendApply(t: seq<Node>, t': seq<Node>, op: int, l: nat, r: nat, res: nat)
    requires WellFormed(t) && WellFormed(t') && Extends(t, t') && IsOp(op) && IsApply(t, op, l, r, res)
    ensures IsApply(t', op, l, r, res)
  {
    ExtendLevels(t, t', l, res);
    ExtendLevels(t, t', r, res);
    ExtendAll(t, t');
  }

  lemma ExtendIte(t: seq<Node>, t': seq<Node>, f: nat, g: nat, h: nat, res: nat)
    requires WellFormed(t) && WellFormed(t') && Extends(t, t') && IsIte(t, f, g, h, res)
    ensures IsIte(t', f, g, h, res)
  {
    ExtendLevels(t, t', f, res);
    ExtendLevels(t, t', g, res);
    ExtendLevels(t, t', h, res);
    ExtendAll(t, t');
  }

  /** The two cofactors of the operands at their top level v are combined into lo and hi. */
  ghost predicate AreHalves(t: seq<Node>, op: int, l: nat, r: nat, v: nat, lo: nat, hi: nat)
    requires WellFormed(t) && IsOp(op)
  {
    && l < |t| && r < |t|
    && v == Min(t[l].level, t[r].level) < t[0].level
    && IsApply(t, op, Lo(t, l, v), Lo(t, r, v), lo)
    && IsApply(t, op, Hi(t, l, v), Hi(t, r, v), hi)
  }

  lemma HalvesBelow(t: seq<Node>, op: int, l: nat, r: nat, v: nat, lo: nat, hi: nat)
    requires WellFormed(t) && IsOp(op) && AreHalves(t, op, l, r, v, lo, hi)
    ensures lo < |t| && v < t[lo].level
    ensures hi < |t| && v < t[hi].level
  {
    Cofactors(t, l, v);
    Cofactors(t, r, v);
  }

  lemma HalvesFrom(t1: seq<Node>, t: seq<Node>, op: int, l: nat, r: nat, v: nat, lo: nat, hi: nat)
    requires WellFormed(t1) && WellFormed(t) && t1 <= t && IsOp(op)
    requires l < |t1| && r < |t1| && v == Min(t1[l].level, t1[r].level) < t1[0].level
    requires IsApply(t1, op, Lo(t1, l, v), Lo(t1, r, v), lo)
    requires IsApply(t, op, Hi(t1, l, v), Hi(t1, r, v), hi)
    ensures AreHalves(t, op, l, r, v, lo, hi)
  {
    ExtendApply(t1, t, op, Lo(t1, l, v), Lo(t1, r, v), lo);
  }

  /** One Shannon step of apply: branch on the combined cofactors.  The new node may be fresh. */
  lemma ApplyStep(t: seq<Node>, t': seq<Node>, op: int, l: nat, r: nat, v: nat, lo: nat, hi: nat, res: nat)
    requires WellFormed(t) && WellFormed(t') && t <= t' && IsOp(op)
    requires AreHalves(t, op, l, r, v, lo, hi)
    requires IsBranch(t', v, lo, hi, res)
    ensures IsApply(t', op, l, r, res)
  {
    ExtendApply(t, t', op, Lo(t, l, v), Lo(t, r, v), lo);
    ExtendApply(t, t', op, Hi(t, l, v), Hi(t, r, v), hi);
    Cofactors(t', l, v);
    Cofactors(t', r, v);
  }

  lemma NotBase(t: seq<Node>)
    requires WellFormed(t)
    ensures IsNot(t, 0, 1) && IsNot(t, 1, 0)
  {
  }

  lemma NotStep(t1: seq<Node>, t2: seq<Node>, t3: seq<Node>, r: nat, lo: nat, hi: nat, res: nat)
    requires WellFormed(t1) && WellFormed(t2) && WellFormed(t3) && t1 <= t2 <= t3 && 2 <= r < |t1|
    requires IsNot(t1, t1[r].low, lo) && IsNot(t2, t1[r].high, hi)
    requires IsBranch(t3, t1[r].level, lo, hi, res)
    ensures IsNot(t3, r, res)
  {
    ExtendNot(t1, t3, t1[r].low, lo);
    ExtendNot(t2, t3, t1[r].high, hi);
    LevelBound(t3, r);
  }

  lemma NotReady(t1: seq<Node>, t2: seq<Node>, r: nat, lo: nat, hi: nat)
    requires WellFormed(t1) && WellFormed(t2) && t1 <= t2 && 2 <= r < |t1|
    requires IsNot(t1, t1[r].low, lo) && IsNot(t2, t1[r].high, hi)
    ensures lo < |t2| && t1[r].level < t2[lo].level
    ensures hi < |t2| && t1[r].level < t2[hi].level
  {
    LevelBound(t1, r);
  }

  ghost predicate AreIteHalves(t: seq<Node>, f: nat, g: nat, h: nat, v: nat, lo: nat, hi: nat)
    requires WellFormed(t)
  {
    && f < |t| && g < |t| && h < |t|
    && v == Min(t[f].level, Min(t[g].level, t[h].level)) < t[0].level
    && IsIte(t, Lo(t, f, v), Lo(t, g, v), Lo(t, h, v), lo)
    && IsIte(t, Hi(t, f, v), Hi(t, g, v), Hi(t, h, v), hi)
  }

  lemma IteHalvesBelow(t: seq<Node>, f: nat, g: nat, h: nat, v: nat, lo: nat, hi: nat)
    requires WellFormed(t) && AreIteHalves(t, f, g, h, v, lo, hi)
    ensures lo < |t| && v < t[lo].level
    ensures hi < |t| && v < t[hi].level
  {
    Cofactors(t, f, v);
    Cofactors(t, g, v);
    Cofactors(t, h, v);
  }

  lemma IteHalvesFrom(t1: seq<Node>, t: seq<Node>, f: nat, g: nat, h: nat, v: nat, lo: nat, hi: nat)
    requires WellFormed(t1) && WellFormed(t) && t1 <= t
    requires f < |t1| && g < |t1| && h < |t1|
    requires v == Min(t1[f].level, Min(t1[g].level, t1[h].level)) < t1[0].level
    requires IsIte(t1, Lo(t1, f, v), Lo(t1, g, v), Lo(t1, h, v), lo)
    requires IsIte(t, Hi(t1, f, v), Hi(t1, g, v), Hi(t1, h, v), hi)
    ensures AreIteHalves(t, f, g, h, v, lo, hi)
  {
    ExtendIte(t1, t, Lo(t1, f, v), Lo(t1, g, v), Lo(t1, h, v), lo);
  }

  lemma IteStep(t: seq<Node>, t': seq<Node>, f: nat, g: nat, h: nat, v: nat, lo: nat, hi: nat, res: nat)
    requires WellFormed(t) && WellFormed(t') && t <= t'
    requires AreIteHalves(t, f, g, h, v, lo, hi)
    requires IsBranch(t', v, lo, hi, res)
    ensures IsIte(t', f, g, h, res)
  {
    hide WellFormed;
    ExtendIte(t, t', Lo(t, f, v), Lo(t, g, v), Lo(t, h, v), lo);
    ExtendIte(t, t', Hi(t, f, v), Hi(t, g, v), Hi(t, h, v), hi);
    Cofactors(t', f, v);
    Cofactors(t', g, v);
    Cofactors(t', h, v);
  }

  /** The arguments that if-then-else answers without recursion. */
  lemma IteBase(t: seq<Node>, f: nat, g: nat, h: nat)
    requires WellFormed(t) && f < |t| && g < |t| && h < |t|
    ensures f == 1 ==> IsIte(t, f, g, h, g)
    ensures f == 0 ==> IsIte(t, f, g, h, h)
    ensures g == h ==> IsIte(t, f, g, h, g)
    ensures g == 1 && h == 0 ==> IsIte(t, f, g, h, f)
  {
    LevelBound(t, f);
    LevelBound(t, g);
    LevelBound(t, h);
  }

  lemma IteIsNot(t: seq<Node>, f: nat, g: nat, h: nat, res: nat)
    requires WellFormed(t) && f < |t| && g == 0 && h == 1 && IsNot(t, f, res)
    ensures IsIte(t, f, g, h, res)
  {
    LevelBound(t, f);
  }
}
