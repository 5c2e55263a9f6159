/** Composition, simultaneous composition, renaming and restriction; the first three share a cache. */
module SubstOps {
  import opened Table
  import opened Meaning
  import opened Substitution
  import opened Kernel
  import IteOps
  import QuantOps

  method ComposeRec(k: Kernel, f: nat, g: nat) returns (res: nat)
    requires k.Valid() && f < |k.nodes| && g < |k.nodes|
    requires 0 <= k.regs.composelevel < k.nodes[0].level
    requires k.regs.replaceid == k.regs.composelevel * 4 + CACHEID_COMPOSE
    modifies k
    ensures k.Valid() && k.Grown()
    ensures IsCompose(k.nodes, k.regs.composelevel, f, g, res)
    decreases 2 * k.nodes[0].level - k.nodes[f].level - k.nodes[g].level
  {
    hide k.Valid, Eval, WellFormed, InnerOk, IsCompose, IsBranch, AreComposeHalves, IsIte, PairHash;
    var x := k.regs.composelevel;
    LevelBound(k.nodes, f);
    LevelBound(k.nodes, g);
    var fNode, gNode := k.nodes[f], k.nodes[g];
    if fNode.level > x {
      ComposeBelow(k.nodes, x, f, g);
      return f;
    }
    var slot := Slot(PairHash(f, g), k.cachesize);
    var entry := k.LookupReplace(slot);
    if entry.a == f && entry.b == g && entry.c == k.regs.replaceid {
      return entry.res;
    }
    if fNode.level < x {
      res := ComposeAbove(k, f, g);
    } else {
      res := IteOps.IteRec(k, g, fNode.high, fNode.low);
      LevelBound(k.nodes, f);
      ComposeHere(k.nodes, x, f, g, res);
    }
    k.StoreReplace(slot, Entry(f, g, k.regs.replaceid, res));
  }

  /** The node lies above the variable that is replaced: both operands are split. */
  method ComposeAbove(k: Kernel, f: nat, g: nat) returns (res: nat)
    requires k.Valid() && 2 <= f < |k.nodes| && g < |k.nodes|
    requires k.nodes[f].level < k.regs.composelevel < k.nodes[0].level
    requires k.regs.replaceid == k.regs.composelevel * 4 + CACHEID_COMPOSE
    modifies k
    ensures k.Valid() && k.Grown()
    ensures IsCompose(k.nodes, k.regs.composelevel, f, g, res)
    decreases 2 * k.nodes[0].level - k.nodes[f].level - k.nodes[g].level, 0
  {
    hide k.Valid, Eval, WellFormed, IsCompose, IsBranch, AreComposeHalves;
    LevelBound(k.nodes, f);
    LevelBound(k.nodes, g);
    var fNode, gNode := k.nodes[f], k.nodes[g];
    var x := k.regs.composelevel;
    var v, f0, g0, f1, g1;
    if fNode.level == gNode.level {
      v, f0, g0, f1, g1 := fNode.level, fNode.low, gNode.low, fNode.high, gNode.high;
    } else if fNode.level < gNode.level {
      v, f0, g0, f1, g1 := fNode.level, fNode.low, g, fNode.high, g;
    } else {
      v, f0, g0, f1, g1 := gNode.level, f, gNode.low, f, gNode.high;
    }
    var lo := ComposeRec(k, f0, g0);
    ghost var t1 := k.nodes;
    var hi := ComposeRec(k, f1, g1);
    ghost var t2 := k.nodes;
    ComposeHalvesFrom(t1, t2, x, f, g, v, lo, hi);
    res := k.MakeNode(v, lo, hi);
    ComposeStep(t2, k.nodes, x, f, g, v, lo, hi, res);
  }

  /** bdd_compose. */
  method Compose(k: Kernel, f: int, g: int, x: int) returns (res: nat, err: int)
    requires k.Valid()
    modifies k
    ensures k.Valid() && k.Kept()
    ensures err == if !old(k.IsBdd(f) && k.IsBdd(g)) then BDD_ILLBDD
                   else if !(0 <= x < old(k.varnum)) then BDD_VAR else 0
    ensures err != 0 ==> res == 0
    ensures err == 0 ==> IsCompose(k.nodes, x, f, g, res)
  {
    hide k.Valid, Eval, WellFormed;
    if !k.IsBdd(f) || !k.IsBdd(g) {
      return 0, BDD_ILLBDD;
    }
    if x < 0 || x >= k.varnum {
      return 0, BDD_VAR;
    }
    k.SetRegs(k.regs.(composelevel := x, replaceid := x * 4 + CACHEID_COMPOSE));
    res := ComposeRec(k, f, g);
    err := 0;
  }

  /** The registers point at pair p, and at no other content under its id. */
  ghost predicate PairContext(k: Kernel, p: PairState, tag: nat)
    reads k
  {
    && k.regs.replacepair == p.result
    && k.regs.replacelast == p.last
    && k.regs.replaceid >= 0 && k.regs.replaceid % 4 == tag
    && k.regs.replaceid / 4 in k.pairs && k.pairs[k.regs.replaceid / 4] == p
  }

  lemma PairNodes(k: Kernel, p: PairState, tag: nat)
    requires k.Valid() && PairContext(k, p, tag)
    ensures PairOk(k.nodes, p)
    ensures |p.result| == k.nodes[0].level
    ensures forall i :: 0 <= i < |p.result| ==> p.result[i] < |k.nodes|
    ensures |Levels(k.nodes, p.result)| == k.nodes[0].level
  {
  }

  lemma VecComposeHalves(t1: seq<Node>, t2: seq<Node>, t3: seq<Node>, gs: seq<nat>, f: nat,
                         lo: nat, hi: nat, res: nat)
    requires WellFormed(t1) && WellFormed(t2) && WellFormed(t3) && t1 <= t2 <= t3
    requires 2 <= f < |t1| && |gs| == t1[0].level
    requires IsVecCompose(t1, gs, t1[f].low, lo) && IsVecCompose(t2, gs, t1[f].high, hi)
    requires t1[f].level < |gs|
    requires IsIte(t3, gs[t1[f].level], hi, lo, res)
    ensures res < |t3| && IsVecCompose(t3, gs, f, res)
  {
    hide IsVecCompose;
    LevelBound(t3, f);
    ExtendVecCompose(t1, t3, gs, t1[f].low, lo);
    ExtendVecCompose(t2, t3, gs, t1[f].high, hi);
    VecComposeStep(t3, gs, f, lo, hi, res);
  }

  lemma CachedVecCompose(k: Kernel, p: PairState, e: Entry)
    requires k.Valid() && PairContext(k, p, CACHEID_VECCOMPOSE)
    requires e.a >= 0 && e.c == k.regs.replaceid && e.res >= 0
    ensures ReplaceEntry(k.nodes, k.pairs, e) <==> IsVecCompose(k.nodes, p.result, e.a, e.res)
    ensures IsVecCompose(k.nodes, p.result, e.a, e.res) ==> e.res < |k.nodes|
  {
  }

  method VecComposeRec(k: Kernel, ghost p: PairState, f: nat) returns (res: nat)
    requires k.Valid() && f < |k.nodes| && PairContext(k, p, CACHEID_VECCOMPOSE)
    modifies k
    ensures k.Valid() && k.Grown()
    ensures res < |k.nodes| && IsVecCompose(k.nodes, p.result, f, res)
    decreases k.nodes[0].level - k.nodes[f].level, 1
  {
    hide k.Valid, Eval, WellFormed, InnerOk, IsIte, IsVecCompose, ReplaceEntry, PairOk, PairsOk, Levels;
    PairNodes(k, p, CACHEID_VECCOMPOSE);
    if k.nodes[f].level > k.regs.replacelast {
      VecComposeBelow(k.nodes, p.result, f);
      return f;
    }
    LevelBound(k.nodes, f);
    var slot := Slot(f, k.cachesize);
    var entry := k.LookupReplace(slot);
    if entry.a == f && entry.c == k.regs.replaceid {
      CachedVecCompose(k, p, entry);
      return entry.res;
    }
    res := VecComposeInner(k, p, f);
    entry := k.LookupReplace(slot);
    entry := entry.(a := f, c := k.regs.replaceid, res := res);
    CachedVecCompose(k, p, entry);
    k.StoreReplace(slot, entry);
  }

  method VecComposeInner(k: Kernel, ghost p: PairState, f: nat) returns (res: nat)
    requires k.Valid() && 2 <= f < |k.nodes| && PairContext(k, p, CACHEID_VECCOMPOSE)
    modifies k
    ensures k.Valid() && k.Grown()
    ensures res < |k.nodes| && IsVecCompose(k.nodes, p.result, f, res)
    decreases k.nodes[0].level - k.nodes[f].level, 0
  {
    hide k.Valid, Eval, WellFormed, InnerOk, IsVecCompose, ReplaceEntry, PairOk, PairsOk, Levels, IsIte;
    PairNodes(k, p, CACHEID_VECCOMPOSE);
    LevelBound(k.nodes, f);
    var node := k.nodes[f];
    var lo := VecComposeRec(k, p, node.low);
    ghost var t1 := k.nodes;
    var hi := VecComposeRec(k, p, node.high);
    ghost var t2 := k.nodes;
    res := IteOps.IteRec(k, k.regs.replacepair[node.level], hi, lo);
    VecComposeHalves(t1, t2, k.nodes, p.result, f, lo, hi, res);
  }

  /** bdd_correctify: puts the test of variable v where it belongs in the order.  Fails exactly when v is
      no variable or is tested by an operand. */
  method Correctify(k: Kernel, v: nat, l: nat, r: nat) returns (res: nat, ok: bool)
    requires k.Valid() && l < |k.nodes| && r < |k.nodes| && v <= k.nodes[0].level
    modifies k
    ensures k.Valid() && k.Grown()
    ensures ok <==> Fits(k.nodes, v, l, r)
    ensures ok ==> IsSelect(k.nodes, v, l, r, res)
    decreases 2 * k.nodes[0].level - k.nodes[l].level - k.nodes[r].level, 1
  {
    hide k.Valid, Eval, WellFormed, IsSelect, AreSelectHalves, Support, Fits;
    LevelBound(k.nodes, l);
    LevelBound(k.nodes, r);
    var left, right := k.nodes[l], k.nodes[r];
    ghost var t := k.nodes;
    FitsAtTop(t, v, l, r);
    if v < left.level && v < right.level {
      res := k.MakeNode(v, l, r);
      ok := true;
      SelectHere(k.nodes, v, l, r, res);
      ExtendFits(t, k.nodes, v, l, r);
      return;
    }
    if v == left.level || v == right.level {
      return 0, false;
    }
    var w, lo, hi;
    w, lo, hi, ok := CorrectifyHalves(k, v, l, r);
    ghost var t2 := k.nodes;
    if ok {
      res := k.MakeNode(w, lo, hi);
      SelectStep(t2, k.nodes, v, l, r, w, lo, hi, res);
    } else {
      res := 0;
    }
    ExtendFits(t2, k.nodes, v, l, r);
  }

  lemma SelectHere(t: seq<Node>, v: nat, l: nat, r: nat, res: nat)
    requires WellFormed(t) && l < |t| && r < |t| && IsBranch(t, v, l, r, res)
    requires if l == r then res == l else 2 <= res && t[res] == Node(v, l, r)
    ensures IsSelect(t, v, l, r, res)
  {
    BranchSupport(t, v, l, r, res);
  }

  method CorrectifyHalves(k: Kernel, v: nat, l: nat, r: nat) returns (w: nat, lo: nat, hi: nat, ok: bool)
    requires k.Valid() && l < |k.nodes| && r < |k.nodes| && v <= k.nodes[0].level
    requires v > k.nodes[l].level || v > k.nodes[r].level
    requires v != k.nodes[l].level && v != k.nodes[r].level
    modifies k
    ensures k.Valid() && k.Grown()
    ensures ok <==> Fits(k.nodes, v, l, r)
    ensures ok ==> AreSelectHalves(k.nodes, v, l, r, w, lo, hi)
    ensures ok ==> lo < |k.nodes| && w < k.nodes[lo].level && hi < |k.nodes| && w < k.nodes[hi].level
    decreases 2 * k.nodes[0].level - k.nodes[l].level - k.nodes[r].level, 0
  {
    hide k.Valid, Eval, WellFormed, IsSelect, AreSelectHalves, Support, Fits;
    LevelBound(k.nodes, l);
    LevelBound(k.nodes, r);
    var left, right := k.nodes[l], k.nodes[r];
    ghost var t := k.nodes;
    var l0, r0, l1, r1;
    if left.level == right.level {
      w, l0, r0, l1, r1 := left.level, left.low, right.low, left.high, right.high;
    } else if left.level < right.level {
      w, l0, r0, l1, r1 := left.level, left.low, r, left.high, r;
    } else {
      w, l0, r0, l1, r1 := right.level, l, right.low, l, right.high;
    }
    FitsInHalves(t, v, l, r, w);
    lo, ok := Correctify(k, v, l0, r0);
    hi := 0;
    ghost var t1 := k.nodes;
    ExtendFits(t, t1, v, l0, r0);
    ExtendFits(t, t1, v, l1, r1);
    ExtendFits(t, t1, v, l, r);
    if ok {
      hi, ok := Correctify(k, v, l1, r1);
      ExtendFits(t1, k.nodes, v, l1, r1);
      ExtendFits(t1, k.nodes, v, l, r);
      if ok {
        SelectHalves(t1, k.nodes, v, l, r, w, lo, hi);
      }
    }
  }

  /** bdd_replace, below its argument check.  An error ends the program in the default setting, so
      nothing is cached after it. */
  method ReplaceRec(k: Kernel, ghost p: PairState, r: nat) returns (res: nat, ok: bool)
    requires k.Valid() && r < |k.nodes| && PairContext(k, p, CACHEID_REPLACE) && PairOk(k.nodes, p)
    modifies k
    ensures k.Valid() && k.Grown() && PairOk(k.nodes, p)
    ensures ok <==> !Collides(k.nodes, Levels(k.nodes, p.result), r)
    ensures ok ==> IsReplace(k.nodes, Levels(k.nodes, p.result), r, res)
    decreases k.nodes[0].level - k.nodes[r].level
  {
    hide k.Valid, Eval, WellFormed, InnerOk, IsReplace, IsSelect, Collides, AreReplaceHalves;
    LevelBound(k.nodes, r);
    if r < 2 || k.nodes[r].level > k.regs.replacelast {
      ReplaceBelow(k.nodes, Levels(k.nodes, p.result), r);
      IdentityFits(k.nodes, Levels(k.nodes, p.result), r);
      return r, true;
    }
    var slot := Slot(r, k.cachesize);
    var entry := k.LookupReplace(slot);
    if entry.a == r && entry.c == k.regs.replaceid {
      return entry.res, true;
    }
    res, ok := ReplaceInner(k, p, r);
    if ok {
      entry := k.LookupReplace(slot);
      k.StoreReplace(slot, entry.(a := r, c := k.regs.replaceid, res := res));
    }
  }

  lemma ExtendRenaming(t: seq<Node>, t': seq<Node>, p: PairState, r: nat)
    requires WellFormed(t) && WellFormed(t') && t <= t' && PairOk(t, p) && r < |t|
    ensures PairOk(t', p) && Levels(t', p.result) == Levels(t, p.result)
    ensures Collides(t', Levels(t, p.result), r) <==> Collides(t, Levels(t, p.result), r)
  {
    ExtendCollides(t, t', Levels(t, p.result), r);
  }

  method ReplaceInner(k: Kernel, ghost p: PairState, r: nat) returns (res: nat, ok: bool)
    requires k.Valid() && 2 <= r < |k.nodes| && PairContext(k, p, CACHEID_REPLACE) && PairOk(k.nodes, p)
    modifies k
    ensures k.Valid() && k.Grown() && PairOk(k.nodes, p)
    ensures ok <==> !Collides(k.nodes, Levels(k.nodes, p.result), r)
    ensures ok ==> IsReplace(k.nodes, Levels(k.nodes, p.result), r, res)
    decreases k.nodes[0].level - k.nodes[r].level, 0
  {
    hide k.Valid, Eval, WellFormed, IsReplace, IsSelect, Support, Collides, CollidesAt, AreReplaceHalves;
    LevelBound(k.nodes, r);
    ghost var t := k.nodes;
    ghost var ren := Levels(t, p.result);
    var node := k.nodes[r];
    CollidesUnfold(t, ren, r);
    var lo;
    lo, ok := ReplaceRec(k, p, node.low);
    ghost var t1 := k.nodes;
    ExtendRenaming(t, t1, p, node.low);
    ExtendRenaming(t, t1, p, node.high);
    ExtendRenaming(t, t1, p, r);
    if !ok { return 0, false; }
    var hi;
    hi, ok := ReplaceRec(k, p, node.high);
    ghost var t2 := k.nodes;
    ExtendRenaming(t1, t2, p, node.low);
    ExtendRenaming(t1, t2, p, node.high);
    ExtendRenaming(t1, t2, p, r);
    if !ok { return 0, false; }
    ReplaceHalves(t1, t2, ren, r, lo, hi);
    res, ok := ReplaceTop(k, p, r, lo, hi);
  }

  /** The children are renamed: the renamed variable is put on top, or where it belongs. */
  method ReplaceTop(k: Kernel, ghost p: PairState, r: nat, lo: nat, hi: nat) returns (res: nat, ok: bool)
    requires k.Valid() && 2 <= r < |k.nodes| && PairContext(k, p, CACHEID_REPLACE) && PairOk(k.nodes, p)
    requires lo < |k.nodes| && hi < |k.nodes| && AreReplaceHalves(k.nodes, Levels(k.nodes, p.result), r, lo, hi)
    requires InnerOk(k.nodes, r)
    requires !Collides(k.nodes, Levels(k.nodes, p.result), k.nodes[r].low)
    requires !Collides(k.nodes, Levels(k.nodes, p.result), k.nodes[r].high)
    modifies k
    ensures k.Valid() && k.Grown() && PairOk(k.nodes, p)
    ensures ok <==> !Collides(k.nodes, Levels(k.nodes, p.result), r)
    ensures ok ==> IsReplace(k.nodes, Levels(k.nodes, p.result), r, res)
  {
    hide k.Valid, Eval, WellFormed, IsReplace, IsSelect, Support, Collides, CollidesAt, AreReplaceHalves, Fits;
    LevelBound(k.nodes, r);
    ghost var t := k.nodes;
    ghost var ren := Levels(t, p.result);
    var node := k.nodes[r];
    CollidesUnfold(t, ren, r);
    FitsUnlessCollides(t, ren, r, lo, hi);
    LevelBound(t, k.regs.replacepair[node.level]);
    res, ok := Correctify(k, k.nodes[k.regs.replacepair[node.level]].level, lo, hi);
    ExtendFits(t, k.nodes, ren[node.level], lo, hi);
    ExtendRenaming(t, k.nodes, p, r);
    if ok {
      ReplaceStep(t, k.nodes, ren, r, lo, hi, res);
    }
  }

  /** bdd_newpair: one more pair, the identity. */
  method NewPair(k: Kernel) returns (pair: nat)
    requires k.Valid() && |k.registry| < PAIR_IDS
    modifies k
    ensures k.Valid() && k.nodes == old(k.nodes) && k.regs == old(k.regs) && k.varnum == old(k.varnum)
    ensures pair == |old(k.registry)| && |k.registry| == pair + 1 && OthersStay(k, pair, old(k.registry))
    ensures var p := k.registry[pair].state; p.last == -1 && |p.result| == k.varnum
    ensures forall v :: 0 <= v < k.varnum ==> IsVar(k.nodes, v, k.registry[pair].state.result[v])
  {
    hide k.Valid, WellFormed, PairsOk, Unused;
    VarsetOk(k);
    var p := PairState(seq(k.varnum, v requires 0 <= v && 2 * v < |k.varset| reads k => k.varset[2 * v]), -1);
    var id := k.NewPairId(p);
    pair := |k.registry|;
    k.FilePair(pair, Pair(id, p));
  }

  /** bdd_setbddpair; with the node of a variable it is bdd_setpair. */
  method SetBddPair(k: Kernel, pair: nat, oldvar: int, newnode: int) returns (err: int)
    requires k.Valid() && pair < |k.registry| < PAIR_IDS
    modifies k
    ensures k.Valid() && k.nodes == old(k.nodes) && k.regs == old(k.regs) && k.varnum == old(k.varnum)
    ensures err == if !k.IsBdd(newnode) then BDD_ILLBDD else if !(0 <= oldvar < k.varnum) then BDD_VAR else 0
    ensures |k.registry| == |old(k.registry)| && OthersStay(k, pair, old(k.registry))
    ensures err != 0 ==> k.registry == old(k.registry)
    ensures err == 0 ==>
      var p := old(k.registry)[pair].state;
      && 0 <= oldvar < |p.result|
      && k.registry[pair].state == PairState(p.result[oldvar := newnode], if oldvar > p.last then oldvar else p.last)
    ensures err == 0 && old(k.pairsid) + 1 < PAIR_IDS ==> k.registry[pair].id !in old(k.pairs)
  {
    hide k.Valid, WellFormed, PairsOk, Unused;
    if !k.IsBdd(newnode) { return BDD_ILLBDD; }
    if oldvar < 0 || oldvar >= k.varnum { return BDD_VAR; }
    RegisteredOk(k, pair);
    var p := k.registry[pair].state;
    p := PairState(p.result[oldvar := newnode], if oldvar > p.last then oldvar else p.last);
    var id := k.NewPairId(p);
    k.FilePair(pair, Pair(id, p));
    err := 0;
  }

  /** The contents of the other pairs stay, whatever their ids. */
  ghost predicate OthersStay(k: Kernel, pair: nat, before: seq<Pair>)
    reads k
  {
    |before| <= |k.registry| && forall i :: 0 <= i < |before| && i != pair ==> k.registry[i].state == before[i].state
  }

  lemma VarsetOk(k: Kernel)
    requires k.Valid()
    ensures |k.varset| == 2 * k.varnum && k.varnum <= k.nodes[0].level
    ensures forall v :: 0 <= v < k.varnum ==> IsVar(k.nodes, v, k.varset[2 * v])
  {
    forall v | 0 <= v < k.varnum ensures IsVar(k.nodes, v, k.varset[2 * v]) {
      assert VarOk(k.nodes, k.varset, v);
    }
  }

  lemma RegisteredOk(k: Kernel, pair: nat)
    requires k.Valid() && pair < |k.registry|
    ensures k.registry[pair].id in k.pairs && k.pairs[k.registry[pair].id] == k.registry[pair].state
    ensures PairOk(k.nodes, k.registry[pair].state) && forall id :: id in k.pairs ==> id <= k.pairsid
  {
  }

  /** bdd_replace. */
  method Replace(k: Kernel, r: int, pair: nat) returns (res: nat, err: int)
    requires k.Valid() && pair < |k.registry|
    modifies k
    ensures k.Valid() && k.Kept() && PairOk(k.nodes, k.registry[pair].state)
    ensures err == if !old(k.IsBdd(r)) then BDD_ILLBDD
                   else if Collides(k.nodes, Levels(k.nodes, k.registry[pair].state.result), r) then BDD_REPLACE else 0
    ensures err == 0 ==> IsReplace(k.nodes, Levels(k.nodes, k.registry[pair].state.result), r, res)
  {
    hide k.Valid, Eval, WellFormed, IsReplace, PairOk, Collides, PairsOk;
    RegisteredOk(k, pair);
    if !k.IsBdd(r) {
      return 0, BDD_ILLBDD;
    }
    var id, p := k.registry[pair].id, k.registry[pair].state;
    k.SetRegs(k.regs.(replacepair := p.result, replacelast := p.last, replaceid := id * 4 + CACHEID_REPLACE));
    var ok;
    res, ok := ReplaceRec(k, p, r);
    err := if ok then 0 else BDD_REPLACE;
  }

  /** bdd_veccompose. */
  method VecCompose(k: Kernel, f: int, pair: nat) returns (res: nat, err: int)
    requires k.Valid() && pair < |k.registry|
    modifies k
    ensures k.Valid() && k.Kept()
    ensures err == if old(k.IsBdd(f)) then 0 else BDD_ILLBDD
    ensures err == 0 ==> IsVecCompose(k.nodes, k.registry[pair].state.result, f, res)
  {
    hide k.Valid, Eval, WellFormed, IsVecCompose;
    RegisteredOk(k, pair);
    if !k.IsBdd(f) {
      return 0, BDD_ILLBDD;
    }
    var id, p := k.registry[pair].id, k.registry[pair].state;
    k.SetRegs(k.regs.(replacepair := p.result, replacelast := p.last, replaceid := id * 4 + CACHEID_VECCOMPOSE));
    res := VecComposeRec(k, p, f);
    err := 0;
  }

  /** Enters the literals of a cube into the variable table: positive ones with the generation,
      negative ones with its opposite. */
  method Varset2SignedVartable(k: Kernel, r: nat)
    requires k.Valid() && 2 <= r < |k.nodes| && k.regs.quantvarsetID < INT_MAX
    modifies k`regs
    ensures k.Valid()
    ensures SignedContext(k.nodes, k.regs, PosVars(k.nodes, r), NegVars(k.nodes, r))
    ensures k.regs.quantlast == k.nodes[0].level
  {
    hide k.Valid, WellFormed, SignedContext;
    k.NextGeneration(INT_MAX / 2);
    var n: nat := r;
    ghost var pos: set<nat>, neg: set<nat> := {}, {};
    LiteralsBelow(k.nodes, r);
    NothingMarked(k.nodes, k.regs);
    while n >= 2
      invariant k.Valid() && n < |k.nodes| && k.regs.quantvarsetID > 0
      invariant n == r || k.regs.quantlast == k.nodes[n].level
      invariant PosVars(k.nodes, r) == pos + PosVars(k.nodes, n)
      invariant NegVars(k.nodes, r) == neg + NegVars(k.nodes, n)
      invariant SignedContext(k.nodes, k.regs, pos, neg)
      invariant forall v :: v in pos || v in neg ==> v < k.nodes[n].level
      decreases k.nodes[0].level - k.nodes[n].level
    {
      LevelBound(k.nodes, n);
      var node := k.nodes[n];
      ghost var regs := k.regs;
      if node.low == 0 {
        k.Mark(node.level, false);
        MarkedPositive(k.nodes, regs, pos, neg, node.level, k.regs);
        pos := pos + {node.level};
        n := node.high;
      } else {
        k.Mark(node.level, true);
        MarkedNegative(k.nodes, regs, pos, neg, node.level, k.regs);
        neg := neg + {node.level};
        n := node.low;
      }
      OtherRegisters(k.nodes, k.regs, pos, neg, k.nodes[n].level);
      k.SetRegs(k.regs.(quantlast := k.nodes[n].level));
    }
    LevelBound(k.nodes, n);
  }

  lemma MarkedPositive(t: seq<Node>, regs: Registers, pos: set<nat>, neg: set<nat>, v: nat, regs': Registers)
    requires WellFormed(t) && SignedContext(t, regs, pos, neg) && v < t[0].level && v !in neg
    requires regs' == regs.(quantvarset := regs.quantvarset[v := regs.quantvarsetID])
    ensures SignedContext(t, regs', pos + {v}, neg)
  {
  }

  lemma MarkedNegative(t: seq<Node>, regs: Registers, pos: set<nat>, neg: set<nat>, v: nat, regs': Registers)
    requires WellFormed(t) && SignedContext(t, regs, pos, neg) && v < t[0].level && v !in pos
    requires regs' == regs.(quantvarset := regs.quantvarset[v := -regs.quantvarsetID])
    ensures SignedContext(t, regs', pos, neg + {v})
  {
  }

  lemma OtherRegisters(t: seq<Node>, regs: Registers, pos: set<nat>, neg: set<nat>, last: int)
    requires WellFormed(t) && SignedContext(t, regs, pos, neg)
    ensures SignedContext(t, regs.(quantlast := last), pos, neg) && |regs.quantvarset| == t[0].level
    ensures regs.quantvarsetID > 0
  {
  }

  lemma NothingMarked(t: seq<Node>, regs: Registers)
    requires WellFormed(t) && |regs.quantvarset| == t[0].level && regs.quantvarsetID > 0
    requires forall v :: 0 <= v < t[0].level ==>
      regs.quantvarset[v] != regs.quantvarsetID && regs.quantvarset[v] != -regs.quantvarsetID
    ensures SignedContext(t, regs, {}, {})
  {
  }

  /** Exactly the variables of pos and neg carry the current generation, with their sign. */
  ghost predicate SignedContext(t: seq<Node>, regs: Registers, pos: set<nat>, neg: set<nat>)
    requires WellFormed(t)
  {
    && |regs.quantvarset| == t[0].level && regs.quantvarsetID > 0
    && (forall v :: 0 <= v < t[0].level ==> (regs.quantvarset[v] == regs.quantvarsetID <==> v in pos))
    && (forall v :: 0 <= v < t[0].level ==> (regs.quantvarset[v] == -regs.quantvarsetID <==> v in neg))
  }

  ghost predicate RestrictContext(t: seq<Node>, regs: Registers, varset: nat)
    requires WellFormed(t) && varset < |t|
  {
    && SignedContext(t, regs, PosVars(t, varset), NegVars(t, varset))
    && regs.quantlast == t[0].level
    && regs.miscid == varset * 8 + CACHEID_RESTRICT
  }

  lemma ExtendRestrictContext(t: seq<Node>, t': seq<Node>, regs: Registers, varset: nat)
    requires WellFormed(t) && WellFormed(t') && t <= t' && varset < |t| && RestrictContext(t, regs, varset)
    ensures RestrictContext(t', regs, varset)
    ensures PosVars(t', varset) == PosVars(t, varset) && NegVars(t', varset) == NegVars(t, varset)
  {
    ExtendLiterals(t, t', varset);
  }

  lemma CachedRestrict(t: seq<Node>, stale: bool, regs: Registers, varset: nat, e: Entry)
    requires WellFormed(t) && varset < |t| && RestrictContext(t, regs, varset)
    requires e.a >= 0 && e.c == regs.miscid && e.res >= 0
    ensures MiscEntry(t, stale, e) <==> IsRestrict(t, PosVars(t, varset), NegVars(t, varset), e.a, e.res)
  {
    assert e.c % 8 == CACHEID_RESTRICT && e.c / 8 == varset;
  }

  lemma RestrictBase(t: seq<Node>, pos: set<nat>, neg: set<nat>, r: nat)
    requires WellFormed(t) && r < 2
    ensures IsRestrict(t, pos, neg, r, r)
  {
  }

  method RestrictRec(k: Kernel, ghost varset: nat, r: nat) returns (res: nat)
    requires k.Valid() && r < |k.nodes| && varset < |k.nodes| && RestrictContext(k.nodes, k.regs, varset)
    modifies k
    ensures k.Valid() && k.Grown()
    ensures IsRestrict(k.nodes, PosVars(k.nodes, varset), NegVars(k.nodes, varset), r, res)
    decreases k.nodes[0].level - k.nodes[r].level, 1
  {
    hide k.Valid, Eval, WellFormed, InnerOk, IsRestrict, SignedContext, MiscEntry, PairHash;
    LevelBound(k.nodes, r);
    if r < 2 || k.nodes[r].level > k.regs.quantlast {
      RestrictBase(k.nodes, PosVars(k.nodes, varset), NegVars(k.nodes, varset), r);
      return r;
    }
    var slot := Slot(PairHash(r, k.regs.miscid), k.cachesize);
    var entry := k.LookupMisc(slot);
    if entry.a == r && entry.c == k.regs.miscid {
      CachedRestrict(k.nodes, k.stale, k.regs, varset, entry);
      return entry.res;
    }
    ghost var t := k.nodes;
    res := RestrictInner(k, varset, r);
    ExtendRestrictContext(t, k.nodes, k.regs, varset);
    entry := k.LookupMisc(slot);
    entry := entry.(a := r, c := k.regs.miscid, res := res);
    CachedRestrict(k.nodes, k.stale, k.regs, varset, entry);
    k.StoreMisc(slot, entry);
  }

  lemma RestrictHalves(t1: seq<Node>, t2: seq<Node>, pos: set<nat>, neg: set<nat>, r: nat, lo: nat, hi: nat)
    requires WellFormed(t1) && WellFormed(t2) && t1 <= t2 && 2 <= r < |t1|
    requires IsRestrict(t1, pos, neg, t1[r].low, lo) && IsRestrict(t2, pos, neg, t1[r].high, hi)
    ensures lo < |t2| && t1[r].level < t2[lo].level && hi < |t2| && t1[r].level < t2[hi].level
  {
    LevelBound(t1, r);
  }

  lemma RestrictJoin(t1: seq<Node>, t2: seq<Node>, t3: seq<Node>, pos: set<nat>, neg: set<nat>, r: nat,
                     lo: nat, hi: nat, res: nat)
    requires WellFormed(t1) && WellFormed(t2) && WellFormed(t3) && t1 <= t2 <= t3
    requires 2 <= r < |t1| && pos !! neg && t1[r].level !in pos && t1[r].level !in neg
    requires IsRestrict(t1, pos, neg, t1[r].low, lo) && IsRestrict(t2, pos, neg, t1[r].high, hi)
    requires IsBranch(t3, t1[r].level, lo, hi, res)
    ensures IsRestrict(t3, pos, neg, r, res)
  {
    hide IsRestrict, IsBranch;
    LevelBound(t3, r);
    ExtendRestrict(t1, t3, pos, neg, t1[r].low, lo);
    ExtendRestrict(t2, t3, pos, neg, t1[r].high, hi);
    RestrictStep(t3, pos, neg, r, lo, hi, res);
  }

  method RestrictInner(k: Kernel, ghost varset: nat, r: nat) returns (res: nat)
    requires k.Valid() && 2 <= r < |k.nodes| && varset < |k.nodes| && RestrictContext(k.nodes, k.regs, varset)
    modifies k
    ensures k.Valid() && k.Grown()
    ensures IsRestrict(k.nodes, PosVars(k.nodes, varset), NegVars(k.nodes, varset), r, res)
    decreases k.nodes[0].level - k.nodes[r].level, 0
  {
    hide k.Valid, Eval, WellFormed, IsRestrict, IsBranch;
    LevelBound(k.nodes, r);
    ghost var t := k.nodes;
    ghost var pos, neg := PosVars(t, varset), NegVars(t, varset);
    LiteralsBelow(t, varset);
    var node := k.nodes[r];
    var mark := k.regs.quantvarset[node.level];
    if (if mark < 0 then -mark else mark) == k.regs.quantvarsetID {
      if mark > 0 {
        res := RestrictRec(k, varset, node.high);
      } else {
        res := RestrictRec(k, varset, node.low);
      }
      ExtendRestrictContext(t, k.nodes, k.regs, varset);
      LevelBound(k.nodes, r);
      RestrictStep(k.nodes, pos, neg, r, res, res, res);
    } else {
      var lo := RestrictRec(k, varset, node.low);
      ghost var t1 := k.nodes;
      ExtendRestrictContext(t, t1, k.regs, varset);
      var hi := RestrictRec(k, varset, node.high);
      ghost var t2 := k.nodes;
      ExtendRestrictContext(t, t2, k.regs, varset);
      RestrictHalves(t1, t2, pos, neg, r, lo, hi);
      res := k.MakeNode(node.level, lo, hi);
      ExtendRestrictContext(t, k.nodes, k.regs, varset);
      RestrictJoin(t1, t2, k.nodes, pos, neg, r, lo, hi, res);
    }
  }

  /** bdd_restrict. */
  method Restrict(k: Kernel, r: int, varset: int) returns (res: nat, err: int)
    requires k.Valid() && k.regs.quantvarsetID < INT_MAX && varset < QuantOps.QUANT_BOUND
    modifies k
    ensures k.Valid() && k.Kept()
    ensures err == if old(k.IsBdd(r)) && old(k.IsBdd(varset)) then 0 else BDD_ILLBDD
    ensures err == 0 ==> IsRestrict(k.nodes, PosVars(k.nodes, varset), NegVars(k.nodes, varset), r, res)
  {
    hide k.Valid, WellFormed, Eval;
    if !k.IsBdd(r) || !k.IsBdd(varset) {
      return 0, BDD_ILLBDD;
    }
    err := 0;
    if varset < 2 {
      assert PosVars(k.nodes, varset) == {} && NegVars(k.nodes, varset) == {};
      RestrictNothing(k.nodes, r);
      return r, 0;
    }
    Varset2SignedVartable(k, varset);
    k.SetRegs(k.regs.(miscid := QuantId(varset, CACHEID_RESTRICT)));
    ghost var t := k.nodes;
    res := RestrictRec(k, varset, r);
  }

  lemma RestrictNothing(t: seq<Node>, r: nat)
    requires WellFormed(t) && r < |t|
    ensures IsRestrict(t, {}, {}, r, r)
  {
    forall env: Env ensures (env - {}) + {} == env {
    }
  }
}
