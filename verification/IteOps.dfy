/** If-then-else, with its own cache. */
module IteOps {
  import opened Table
  import opened Meaning
  import opened Kernel
  import ApplyOps

  /** The arguments of the two recursive calls, and the level they split on. */
  datatype Split = Split(v: nat, f0: nat, g0: nat, h0: nat, f1: nat, g1: nat, h1: nat)

  /** The recursive calls of if-then-else, by the relative order of the three top variables. */
  function SplitOn(t: seq<Node>, f: nat, g: nat, h: nat): Split
    requires f < |t| && g < |t| && h < |t|
  {
    var fNode, gNode, hNode := t[f], t[g], t[h];
    if fNode.level == gNode.level then
      if fNode.level == hNode.level then Split(fNode.level, fNode.low, gNode.low, hNode.low, fNode.high, gNode.high, hNode.high)
      else if fNode.level < hNode.level then Split(fNode.level, fNode.low, gNode.low, h, fNode.high, gNode.high, h)
      else Split(hNode.level, f, g, hNode.low, f, g, hNode.high)
    else if fNode.level < gNode.level then
      if fNode.level == hNode.level then Split(fNode.level, fNode.low, g, hNode.low, fNode.high, g, hNode.high)
      else if fNode.level < hNode.level then Split(fNode.level, fNode.low, g, h, fNode.high, g, h)
      else Split(hNode.level, f, g, hNode.low, f, g, hNode.high)
    else
      if gNode.level == hNode.level then Split(gNode.level, f, gNode.low, hNode.low, f, gNode.high, hNode.high)
      else if gNode.level < hNode.level then Split(gNode.level, f, gNode.low, h, f, gNode.high, h)
      else Split(hNode.level, f, g, hNode.low, f, g, hNode.high)
  }

  /** Every case splits on the topmost variable, into exactly the cofactors. */
  lemma SplitIsCofactors(t: seq<Node>, f: nat, g: nat, h: nat)
    requires f < |t| && g < |t| && h < |t|
    ensures var s := SplitOn(t, f, g, h);
      && s.v == Min(t[f].level, Min(t[g].level, t[h].level))
      && s.f0 == Lo(t, f, s.v) && s.g0 == Lo(t, g, s.v) && s.h0 == Lo(t, h, s.v)
      && s.f1 == Hi(t, f, s.v) && s.g1 == Hi(t, g, s.v) && s.h1 == Hi(t, h, s.v)
  {
  }

  lemma SplitBounds(t: seq<Node>, f: nat, g: nat, h: nat)
    requires WellFormed(t) && 2 <= f < |t| && g < |t| && h < |t|
    ensures var s := SplitOn(t, f, g, h);
      && s.v < t[0].level
      && s.f0 < |t| && s.g0 < |t| && s.h0 < |t|
      && s.f1 < |t| && s.g1 < |t| && s.h1 < |t|
      && t[s.f0].level + t[s.g0].level + t[s.h0].level > t[f].level + t[g].level + t[h].level
      && t[s.f1].level + t[s.g1].level + t[s.h1].level > t[f].level + t[g].level + t[h].level
      && t[s.f0].level + t[s.g0].level + t[s.h0].level <= 3 * t[0].level
      && t[s.f1].level + t[s.g1].level + t[s.h1].level <= 3 * t[0].level
  {
    SplitIsCofactors(t, f, g, h);
    hide SplitOn;
    var s := SplitOn(t, f, g, h);
    LevelBound(t, f);
    LevelBound(t, g);
    LevelBound(t, h);
    Cofactors(t, f, s.v);
    Cofactors(t, g, s.v);
    Cofactors(t, h, s.v);
    hide WellFormed;
  }

  method IteRec(k: Kernel, f: nat, g: nat, h: nat) returns (res: nat)
    requires k.Valid() && f < |k.nodes| && g < |k.nodes| && h < |k.nodes|
    modifies k
    ensures k.Valid() && k.Grown()
    ensures IsIte(k.nodes, f, g, h, res)
    decreases 3 * k.nodes[0].level - k.nodes[f].level - k.nodes[g].level - k.nodes[h].level, 1
  {
    hide k.Valid, Eval, WellFormed, InnerOk, IsIte, IsNot, IsBranch, AreIteHalves, TripleHash;
    IteBase(k.nodes, f, g, h);
    if f == 1 { return g; }
    if f == 0 { return h; }
    if g == h { return g; }
    if g == 1 && h == 0 { return f; }
    if g == 0 && h == 1 {
      res := ApplyOps.NotRec(k, f);
      IteIsNot(k.nodes, f, g, h, res);
      return;
    }
    var slot := Slot(TripleHash(f, g, h), k.cachesize);
    var entry := k.LookupIte(slot);
    if entry.a == f && entry.b == g && entry.c == h {
      return entry.res;
    }
    var v, lo, hi := IteHalves(k, f, g, h);
    ghost var t := k.nodes;
    IteHalvesBelow(t, f, g, h, v, lo, hi);
    res := k.MakeNode(v, lo, hi);
    IteStep(t, k.nodes, f, g, h, v, lo, hi, res);
    k.StoreIte(slot, Entry(f, g, h, res));
  }

  method IteHalves(k: Kernel, f: nat, g: nat, h: nat) returns (v: nat, lo: nat, hi: nat)
    requires k.Valid() && 2 <= f < |k.nodes| && g < |k.nodes| && h < |k.nodes|
    modifies k
    ensures k.Valid() && k.Grown()
    ensures AreIteHalves(k.nodes, f, g, h, v, lo, hi)
    decreases 3 * k.nodes[0].level - k.nodes[f].level - k.nodes[g].level - k.nodes[h].level, 0
  {
    hide k.Valid, Eval, WellFormed, IsIte, AreIteHalves, SplitOn;
    SplitIsCofactors(k.nodes, f, g, h);
    SplitBounds(k.nodes, f, g, h);
    var s := SplitOn(k.nodes, f, g, h);
    v := s.v;
    lo := IteRec(k, s.f0, s.g0, s.h0);
    ghost var t := k.nodes;
    hi := IteRec(k, s.f1, s.g1, s.h1);
    IteHalvesFrom(t, k.nodes, f, g, h, v, lo, hi);
  }

  /** bdd_ite. */
  method Ite(k: Kernel, f: int, g: int, h: int) returns (res: nat, err: int)
    requires k.Valid()
    modifies k
    ensures k.Valid() && k.Grown()
    ensures err == if old(k.IsBdd(f) && k.IsBdd(g) && k.IsBdd(h)) then 0 else BDD_ILLBDD
    ensures err != 0 ==> res == 0
    ensures err == 0 ==> IsIte(k.nodes, f, g, h, res)
  {
    if !k.IsBdd(f) || !k.IsBdd(g) || !k.IsBdd(h) {
      return 0, BDD_ILLBDD;
    }
    res := IteRec(k, f, g, h);
    err := 0;
  }
}
