/** The two generalized cofactors.  constrain uses the miscellaneous cache; simplify shares the cache
    of the binary operators and calls one of them. */
module CareOps {
  import opened Table
  import opened Meaning
  import opened CareSet
  import opened Kernel
  import ApplyOps

  lemma ConstrainHalves(t1: seq<Node>, t2: seq<Node>, f: nat, c: nat, v: nat, lo: nat, hi: nat)
    requires WellFormed(t1) && WellFormed(t2) && t1 <= t2 && f < |t1| && c < |t1|
    requires v == Min(t1[f].level, t1[c].level) < t1[0].level
    requires IsConstrain(t1, Lo(t1, f, v), Lo(t1, c, v), lo)
    requires IsConstrain(t2, Hi(t1, f, v), Hi(t1, c, v), hi)
    ensures lo < |t2| && v < t2[lo].level
    ensures hi < |t2| && v < t2[hi].level
  {
    Cofactors(t1, f, v);
    Cofactors(t1, c, v);
  }

  lemma ConstrainJoin(t1: seq<Node>, t2: seq<Node>, t3: seq<Node>, f: nat, c: nat, v: nat, lo: nat, hi: nat, res: nat)
    requires WellFormed(t1) && WellFormed(t2) && WellFormed(t3) && t1 <= t2 <= t3 && f < |t1| && 0 < c < |t1|
    requires v == Min(t1[f].level, t1[c].level) < t1[0].level
    requires t1[c].level == v ==> t1[c].low != 0 && t1[c].high != 0
    requires IsConstrain(t1, Lo(t1, f, v), Lo(t1, c, v), lo)
    requires IsConstrain(t2, Hi(t1, f, v), Hi(t1, c, v), hi)
    requires IsBranch(t3, v, lo, hi, res)
    ensures IsConstrain(t3, f, c, res)
  {
    hide IsConstrain, IsBranch;
    ExtendConstrain(t1, t3, Lo(t1, f, v), Lo(t1, c, v), lo);
    ExtendConstrain(t2, t3, Hi(t1, f, v), Hi(t1, c, v), hi);
    ConstrainBranch(t3, f, c, v, lo, hi, res);
  }

  method ConstrainRec(k: Kernel, f: nat, c: nat) returns (res: nat)
    requires k.Valid() && f < |k.nodes| && c < |k.nodes| && k.regs.miscid == CACHEID_CONSTRAIN
    modifies k
    ensures k.Valid() && k.Grown()
    ensures IsConstrain(k.nodes, f, c, res)
    decreases 2 * k.nodes[0].level - k.nodes[f].level - k.nodes[c].level, 1
  {
    hide k.Valid, Eval, WellFormed, InnerOk, IsConstrain, PairHash;
    ConstrainBase(k.nodes, f, c);
    if c == 1 { return f; }
    if f < 2 { return f; }
    if c == f { return 1; }
    if c == 0 { return 0; }
    var slot := Slot(PairHash(f, c), k.cachesize);
    var entry := k.LookupMisc(slot);
    if entry.a == f && entry.b == c && entry.c == k.regs.miscid {
      return entry.res;
    }
    res := ConstrainInner(k, f, c);
    k.StoreMisc(slot, Entry(f, c, k.regs.miscid, res));
  }

  /** The recursive calls of constrain.  Where the care set leaves one way only, that way is taken. */
  method ConstrainInner(k: Kernel, f: nat, c: nat) returns (res: nat)
    requires k.Valid() && 2 <= f < |k.nodes| && 2 <= c < |k.nodes| && k.regs.miscid == CACHEID_CONSTRAIN
    modifies k
    ensures k.Valid() && k.Grown()
    ensures IsConstrain(k.nodes, f, c, res)
    decreases 2 * k.nodes[0].level - k.nodes[f].level - k.nodes[c].level, 0
  {
    hide k.Valid, Eval, WellFormed, IsConstrain, IsBranch;
    LevelBound(k.nodes, f);
    LevelBound(k.nodes, c);
    var fNode, cNode := k.nodes[f], k.nodes[c];
    var v, f0, c0, f1, c1;
    if fNode.level < cNode.level {
      v, f0, c0, f1, c1 := fNode.level, fNode.low, c, fNode.high, c;
    } else {
      if fNode.level == cNode.level {
        v, f0, c0, f1, c1 := fNode.level, fNode.low, cNode.low, fNode.high, cNode.high;
      } else {
        v, f0, c0, f1, c1 := cNode.level, f, cNode.low, f, cNode.high;
      }
      if cNode.low == 0 || cNode.high == 0 {
        if cNode.low == 0 {
          res := ConstrainRec(k, f1, c1);
        } else {
          res := ConstrainRec(k, f0, c0);
        }
        LevelBound(k.nodes, c);
        ConstrainForced(k.nodes, f, c, v, res);
        return;
      }
    }
    ghost var t := k.nodes;
    var lo := ConstrainRec(k, f0, c0);
    ghost var t1 := k.nodes;
    var hi := ConstrainRec(k, f1, c1);
    ghost var t2 := k.nodes;
    ConstrainHalves(t1, t2, f, c, v, lo, hi);
    res := k.MakeNode(v, lo, hi);
    ConstrainJoin(t1, t2, k.nodes, f, c, v, lo, hi, res);
  }

  /** bdd_constrain. */
  method Constrain(k: Kernel, f: int, c: int) returns (res: nat, err: int)
    requires k.Valid()
    modifies k
    ensures k.Valid() && k.Kept()
    ensures err == if old(k.IsBdd(f)) && old(k.IsBdd(c)) then 0 else BDD_ILLBDD
    ensures err != 0 ==> res == 0
    ensures err == 0 ==> IsConstrain(k.nodes, f, c, res)
  {
    hide k.Valid, WellFormed, IsConstrain;
    if !k.IsBdd(f) || !k.IsBdd(c) {
      return 0, BDD_ILLBDD;
    }
    k.SetRegs(k.regs.(miscid := CACHEID_CONSTRAIN));
    res := ConstrainRec(k, f, c);
    err := 0;
  }

  lemma SimplifyHalves(t1: seq<Node>, t2: seq<Node>, f: nat, d: nat, lo: nat, hi: nat)
    requires WellFormed(t1) && WellFormed(t2) && t1 <= t2 && 2 <= f < |t1| && d < |t1|
    requires IsSimplify(t1, t1[f].low, Lo(t1, d, t1[f].level), lo)
    requires IsSimplify(t2, t1[f].high, Hi(t1, d, t1[f].level), hi)
    ensures lo < |t2| && t1[f].level < t2[lo].level
    ensures hi < |t2| && t1[f].level < t2[hi].level
  {
    LevelBound(t1, f);
  }

  lemma SimplifyJoin(t1: seq<Node>, t2: seq<Node>, t3: seq<Node>, f: nat, d: nat, lo: nat, hi: nat, res: nat)
    requires WellFormed(t1) && WellFormed(t2) && WellFormed(t3) && t1 <= t2 <= t3 && 2 <= f < |t1| && 0 < d < |t1|
    requires t1[f].level <= t1[d].level
    requires t1[f].level == t1[d].level ==> t1[d].low != 0 && t1[d].high != 0
    requires IsSimplify(t1, t1[f].low, Lo(t1, d, t1[f].level), lo)
    requires IsSimplify(t2, t1[f].high, Hi(t1, d, t1[f].level), hi)
    requires IsBranch(t3, t1[f].level, lo, hi, res)
    requires lo == hi ==> res == lo
    ensures IsSimplify(t3, f, d, res)
  {
    hide IsSimplify, IsBranch;
    LevelBound(t3, f);
    ExtendSimplify(t1, t3, t1[f].low, Lo(t1, d, t1[f].level), lo);
    ExtendSimplify(t2, t3, t1[f].high, Hi(t1, d, t1[f].level), hi);
    SimplifyBranch(t3, f, d, lo, hi, res);
  }

  lemma SimplifyOr(t: seq<Node>, t': seq<Node>, f: nat, d: nat, d': nat, res: nat)
    requires WellFormed(t) && WellFormed(t') && t <= t' && f < |t| && 2 <= d < |t| && t[d].level < t[f].level
    requires IsApply(t, OR, t[d].low, t[d].high, d')
    requires IsSimplify(t', f, d', res)
    ensures IsSimplify(t', f, d, res)
  {
    LevelBound(t', d);
    ExtendApply(t, t', OR, t[d].low, t[d].high, d');
    SimplifyQuantified(t', f, d, d', res);
  }

  lemma OrBelow(t: seq<Node>, d: nat, d': nat)
    requires WellFormed(t) && 2 <= d < |t| && InnerOk(t, d) && IsApply(t, OR, t[d].low, t[d].high, d')
    ensures d' < |t| && t[d].level < t[d'].level
  {
  }

  method SimplifyRec(k: Kernel, f: nat, d: nat) returns (res: nat)
    requires k.Valid() && f < |k.nodes| && d < |k.nodes| && k.regs.applyop == OR
    modifies k
    ensures k.Valid() && k.Grown()
    ensures IsSimplify(k.nodes, f, d, res)
    decreases 2 * k.nodes[0].level - k.nodes[f].level - k.nodes[d].level, 2
  {
    hide k.Valid, Eval, WellFormed, InnerOk, IsSimplify, IsApply, TripleHash;
    SimplifyBase(k.nodes, f, d);
    if d == 1 || f < 2 { return f; }
    if d == f { return 1; }
    if d == 0 { return 0; }
    var slot := Slot(TripleHash(f, d, SIMPLIFY), k.cachesize);
    var entry := k.LookupApply(slot);
    if entry.a == f && entry.b == d && entry.c == SIMPLIFY {
      return entry.res;
    }
    res := SimplifyInner(k, f, d);
    k.StoreApply(slot, Entry(f, d, SIMPLIFY, res));
  }

  method SimplifyInner(k: Kernel, f: nat, d: nat) returns (res: nat)
    requires k.Valid() && 2 <= f < |k.nodes| && 2 <= d < |k.nodes| && k.regs.applyop == OR
    modifies k
    ensures k.Valid() && k.Grown()
    ensures IsSimplify(k.nodes, f, d, res)
    decreases 2 * k.nodes[0].level - k.nodes[f].level - k.nodes[d].level, 1
  {
    hide k.Valid, Eval, WellFormed, IsSimplify, IsBranch, IsApply;
    LevelBound(k.nodes, f);
    LevelBound(k.nodes, d);
    var fNode, dNode := k.nodes[f], k.nodes[d];
    if dNode.level < fNode.level {
      res := SimplifyPast(k, f, d);
      return;
    }
    if fNode.level == dNode.level && (dNode.low == 0 || dNode.high == 0) {
      if dNode.low == 0 {
        res := SimplifyRec(k, fNode.high, dNode.high);
      } else {
        res := SimplifyRec(k, fNode.low, dNode.low);
      }
      LevelBound(k.nodes, f);
      LevelBound(k.nodes, d);
      SimplifyForced(k.nodes, f, d, res);
      return;
    }
    var d0, d1 := d, d;
    if fNode.level == dNode.level {
      d0, d1 := dNode.low, dNode.high;
    }
    var lo := SimplifyRec(k, fNode.low, d0);
    ghost var t1 := k.nodes;
    var hi := SimplifyRec(k, fNode.high, d1);
    ghost var t2 := k.nodes;
    SimplifyHalves(t1, t2, f, d, lo, hi);
    res := k.MakeNode(fNode.level, lo, hi);
    SimplifyJoin(t1, t2, k.nodes, f, d, lo, hi, res);
  }

  /** The care set starts above f: its top variable is quantified away first. */
  method SimplifyPast(k: Kernel, f: nat, d: nat) returns (res: nat)
    requires k.Valid() && 2 <= f < |k.nodes| && 2 <= d < |k.nodes| && k.regs.applyop == OR
    requires k.nodes[d].level < k.nodes[f].level
    modifies k
    ensures k.Valid() && k.Grown()
    ensures IsSimplify(k.nodes, f, d, res)
    decreases 2 * k.nodes[0].level - k.nodes[f].level - k.nodes[d].level, 0
  {
    hide k.Valid, Eval, WellFormed, IsSimplify, IsApply;
    LevelBound(k.nodes, f);
    LevelBound(k.nodes, d);
    var either := ApplyOps.ApplyRec(k, k.nodes[d].low, k.nodes[d].high);
    ghost var t := k.nodes;
    LevelBound(t, d);
    OrBelow(t, d, either);
    LevelBound(t, either);
    res := SimplifyRec(k, f, either);
    SimplifyOr(t, k.nodes, f, d, either, res);
  }

  /** bdd_simplify. */
  method Simplify(k: Kernel, f: int, d: int) returns (res: nat, err: int)
    requires k.Valid()
    modifies k
    ensures k.Valid() && k.Kept()
    ensures err == if old(k.IsBdd(f)) && old(k.IsBdd(d)) then 0 else BDD_ILLBDD
    ensures err != 0 ==> res == 0
    ensures err == 0 ==> IsSimplify(k.nodes, f, d, res)
  {
    hide k.Valid, WellFormed, IsSimplify;
    if !k.IsBdd(f) || !k.IsBdd(d) {
      return 0, BDD_ILLBDD;
    }
    k.SetRegs(k.regs.(applyop := OR));
    res := SimplifyRec(k, f, d);
    err := 0;
  }
}
