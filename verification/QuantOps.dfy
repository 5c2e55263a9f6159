/** Existential and universal quantification, alone and fused with a binary operator. */
module QuantOps {
  import opened Table
  import opened Meaning
  import opened Quantification
  import opened Kernel
  import opened ApplyOps

  /** The registers are set up for quantifying exactly vars. */
  ghost predicate QuantContext(t: seq<Node>, regs: Registers, all: bool, vars: set<nat>)
    requires WellFormed(t)
  {
    && regs.applyop == Joiner(all)
    && |regs.quantvarset| == t[0].level
    && (forall v :: 0 <= v < t[0].level ==> (regs.quantvarset[v] == regs.quantvarsetID <==> v in vars))
    && (forall v :: v in vars ==> v <= regs.quantlast)
    && regs.quantid >= 0 && IdIsForall(regs.quantid) == all
    && IdVarset(regs.quantid) < |t| && CubeVars(t, IdVarset(regs.quantid)) == vars
  }

  ghost predicate AppQuantContext(t: seq<Node>, regs: Registers, all: bool, vars: set<nat>)
    requires WellFormed(t)
  {
    && QuantContext(t, regs, all, vars)
    && IsOp(regs.appexop)
    && regs.appexid >= 0 && (regs.appexid % 2 == 1) == all && (regs.appexid / 2) % 16 == regs.appexop
    && regs.appexid / 32 < |t| && CubeVars(t, regs.appexid / 32) == vars
  }

  lemma ExtendContext(t: seq<Node>, t': seq<Node>, regs: Registers, all: bool, vars: set<nat>)
    requires WellFormed(t) && WellFormed(t') && t <= t' && QuantContext(t, regs, all, vars)
    ensures QuantContext(t', regs, all, vars)
    ensures AppQuantContext(t, regs, all, vars) ==> AppQuantContext(t', regs, all, vars)
  {
    ExtendCubeVars(t, t', IdVarset(regs.quantid));
    if AppQuantContext(t, regs, all, vars) {
      ExtendCubeVars(t, t', regs.appexid / 32);
    }
  }

  lemma CachedQuant(t: seq<Node>, regs: Registers, all: bool, vars: set<nat>, e: Entry)
    requires WellFormed(t) && QuantContext(t, regs, all, vars)
    requires e.a >= 0 && e.c == regs.quantid && e.res >= 0
    ensures QuantEntry(t, e) <==> IsQuant(t, all, vars, e.a, e.res)
  {
  }

  lemma CachedAppQuant(t: seq<Node>, regs: Registers, all: bool, vars: set<nat>, e: Entry)
    requires WellFormed(t) && AppQuantContext(t, regs, all, vars)
    requires e.a >= 0 && e.b >= 0 && e.c == regs.appexid && e.res >= 0
    ensures AppexEntry(t, e) <==> IsAppQuant(t, all, vars, regs.appexop, e.a, e.b, e.res)
  {
  }

  /** A node below the last quantified variable is its own quantification. */
  lemma PastLast(t: seq<Node>, regs: Registers, all: bool, vars: set<nat>, r: nat)
    requires WellFormed(t) && r < |t| && QuantContext(t, regs, all, vars)
    requires r < 2 || t[r].level > regs.quantlast
    ensures IsQuant(t, all, vars, r, r)
  {
    CubeVarsBelow(t, IdVarset(regs.quantid));
    LevelBound(t, r);
    QuantBase(t, all, vars, r);
  }

  /** Both halves are put together: joined by the operator where the variable is quantified, and
      branched on otherwise. */
  method Join(k: Kernel, ghost all: bool, ghost vars: set<nat>, v: nat, lo: nat, hi: nat) returns (res: nat)
    requires k.Valid() && lo < |k.nodes| && hi < |k.nodes|
    requires v < k.nodes[lo].level && v < k.nodes[hi].level && v < k.nodes[0].level
    requires QuantContext(k.nodes, k.regs, all, vars)
    modifies k
    ensures k.Valid() && k.Grown()
    ensures IsJoin(k.nodes, all, vars, v, lo, hi, res)
  {
    hide k.Valid, Eval, WellFormed, IsBranch, IsApply;
    if k.regs.quantvarset[v] == k.regs.quantvarsetID {
      res := ApplyRec(k, lo, hi);
    } else {
      res := k.MakeNode(v, lo, hi);
    }
  }

  method QuantRec(k: Kernel, ghost all: bool, ghost vars: set<nat>, r: nat) returns (res: nat)
    requires k.Valid() && r < |k.nodes| && QuantContext(k.nodes, k.regs, all, vars)
    modifies k
    ensures k.Valid() && k.Grown()
    ensures IsQuant(k.nodes, all, vars, r, res)
    decreases k.nodes[0].level - k.nodes[r].level
  {
    hide k.Valid, Eval, WellFormed, IsQuant, IsJoin, AreQuantHalves, QuantContext, QuantEntry;
    if r < 2 || k.nodes[r].level > k.regs.quantlast {
      PastLast(k.nodes, k.regs, all, vars, r);
      return r;
    }
    var slot := Slot(r, k.cachesize);
    var entry := k.LookupQuant(slot);
    if entry.a == r && entry.c == k.regs.quantid {
      CachedQuant(k.nodes, k.regs, all, vars, entry);
      return entry.res;
    }
    LevelBound(k.nodes, r);
    var node := k.nodes[r];
    ghost var t0 := k.nodes;
    var lo := QuantRec(k, all, vars, node.low);
    ghost var t1 := k.nodes;
    ExtendContext(t0, t1, k.regs, all, vars);
    var hi := QuantRec(k, all, vars, node.high);
    ghost var t2 := k.nodes;
    ExtendContext(t1, t2, k.regs, all, vars);
    QuantHalves(t1, t2, all, vars, r, lo, hi);
    res := Join(k, all, vars, node.level, lo, hi);
    ExtendContext(t2, k.nodes, k.regs, all, vars);
    QuantStep(t2, k.nodes, all, vars, r, lo, hi, res);
    entry := k.LookupQuant(slot);
    entry := entry.(a := r, c := k.regs.quantid, res := res);
    CachedQuant(k.nodes, k.regs, all, vars, entry);
    k.StoreQuant(slot, entry);
  }

  /** How the fused operator answers a pair of operands: with a node, with the quantification of a
      node, or by recursion. */
  datatype Answer = Constant(c: nat) | Only(x: nat) | Recurse

  function Answered(op: int, l: nat, r: nat): Answer
    requires IsOp(op)
  {
    if op == AND && (l == 0 || r == 0) then Constant(0)
    else if op == AND && l == r then Only(l)
    else if op == AND && l == 1 then Only(r)
    else if op == AND && r == 1 then Only(l)
    else if op == OR && (l == 1 || r == 1) then Constant(1)
    else if op == OR && l == r then Only(l)
    else if op == OR && l == 0 then Only(r)
    else if op == OR && r == 0 then Only(l)
    else if op == XOR && l == r then Constant(0)
    else if op == XOR && l == 0 then Only(r)
    else if op == XOR && r == 0 then Only(l)
    else if op == NAND && (l == 0 || r == 0) then Constant(1)
    else if op == NOR && (l == 1 || r == 1) then Constant(0)
    else if l < 2 && r < 2 then Constant(OPRRES[op][l * 2 + r])
    else Recurse
  }

  lemma AnsweredIsApply(t: seq<Node>, op: int, l: nat, r: nat)
    requires WellFormed(t) && IsOp(op) && l < |t| && r < |t|
    ensures match Answered(op, l, r)
      case Constant(c) => c < 2 && IsApply(t, op, l, r, c)
      case Only(x) => IsApply(t, op, l, r, x)
      case Recurse => l >= 2 || r >= 2
  {
    LevelBound(t, l);
    LevelBound(t, r);
    if l < 2 && r < 2 { TruthTable(op, l, r); }
  }

  lemma AnsweredConstant(t: seq<Node>, regs: Registers, all: bool, vars: set<nat>, l: nat, r: nat, c: nat)
    requires WellFormed(t) && AppQuantContext(t, regs, all, vars) && l < |t| && r < |t|
    requires IsApply(t, regs.appexop, l, r, c)
    requires c < 2 || (t[l].level > regs.quantlast && t[r].level > regs.quantlast)
    ensures IsAppQuant(t, all, vars, regs.appexop, l, r, c)
  {
    CubeVarsBelow(t, IdVarset(regs.quantid));
    LevelBound(t, c);
    AppQuantConstant(t, all, vars, regs.appexop, l, r, c);
  }

  method AppQuantRec(k: Kernel, ghost all: bool, ghost vars: set<nat>, l: nat, r: nat) returns (res: nat)
    requires k.Valid() && l < |k.nodes| && r < |k.nodes| && AppQuantContext(k.nodes, k.regs, all, vars)
    modifies k
    ensures k.Valid() && k.Grown()
    ensures IsAppQuant(k.nodes, all, vars, k.regs.appexop, l, r, res)
    decreases 2 * k.nodes[0].level - k.nodes[l].level - k.nodes[r].level, 1
  {
    hide k.Valid, Eval, WellFormed, IsApply, IsQuant, IsAppQuant, IsJoin, AreAppQuantHalves, QuantContext;
    hide AppexEntry, Answered;
    var op := k.regs.appexop;
    AnsweredIsApply(k.nodes, op, l, r);
    var answer := Answered(op, l, r);
    if answer.Constant? {
      AnsweredConstant(k.nodes, k.regs, all, vars, l, r, answer.c);
      return answer.c;
    }
    ghost var t0 := k.nodes;
    if answer.Only? {
      res := QuantRec(k, all, vars, answer.x);
      ExtendApply(t0, k.nodes, op, l, r, answer.x);
      AppQuantCollapse(k.nodes, all, vars, op, l, r, answer.x, res);
      return;
    }
    if k.nodes[l].level > k.regs.quantlast && k.nodes[r].level > k.regs.quantlast {
      res := ApplyPast(k, all, vars, l, r);
      return;
    }
    var slot := Slot(PairHash(l, r), k.cachesize);
    var entry := k.LookupAppex(slot);
    if entry.a == l && entry.b == r && entry.c == k.regs.appexid {
      CachedAppQuant(k.nodes, k.regs, all, vars, entry);
      return entry.res;
    }
    var v, lo, hi := AppQuantHalves(k, all, vars, l, r);
    ghost var t := k.nodes;
    ExtendContext(t0, t, k.regs, all, vars);
    res := Join(k, all, vars, v, lo, hi);
    ExtendContext(t, k.nodes, k.regs, all, vars);
    AppQuantStep(t, k.nodes, all, vars, op, l, r, v, lo, hi, res);
    CachedAppQuant(k.nodes, k.regs, all, vars, Entry(l, r, k.regs.appexid, res));
    k.StoreAppex(slot, Entry(l, r, k.regs.appexid, res));
  }

  /** Nothing is left to quantify: the operator itself, run with its own code in the register. */
  method ApplyPast(k: Kernel, ghost all: bool, ghost vars: set<nat>, l: nat, r: nat) returns (res: nat)
    requires k.Valid() && l < |k.nodes| && r < |k.nodes| && AppQuantContext(k.nodes, k.regs, all, vars)
    requires k.nodes[l].level > k.regs.quantlast && k.nodes[r].level > k.regs.quantlast
    modifies k
    ensures k.Valid() && k.Grown()
    ensures IsAppQuant(k.nodes, all, vars, k.regs.appexop, l, r, res)
  {
    hide k.Valid, Eval, WellFormed, IsAppQuant, IsApply, QuantContext;
    ghost var t := k.nodes;
    var oldop := k.regs.applyop;
    k.SetRegs(k.regs.(applyop := k.regs.appexop));
    res := ApplyRec(k, l, r);
    k.SetRegs(k.regs.(applyop := oldop));
    ExtendContext(t, k.nodes, k.regs, all, vars);
    AnsweredConstant(k.nodes, k.regs, all, vars, l, r, res);
  }

  method AppQuantHalves(k: Kernel, ghost all: bool, ghost vars: set<nat>, l: nat, r: nat)
    returns (v: nat, lo: nat, hi: nat)
    requires k.Valid() && l < |k.nodes| && r < |k.nodes| && AppQuantContext(k.nodes, k.regs, all, vars)
    requires l >= 2 || r >= 2
    modifies k
    ensures k.Valid() && k.Grown()
    ensures AreAppQuantHalves(k.nodes, all, vars, k.regs.appexop, l, r, v, lo, hi)
    ensures lo < |k.nodes| && v < k.nodes[lo].level && hi < |k.nodes| && v < k.nodes[hi].level
    ensures v < k.nodes[0].level
    decreases 2 * k.nodes[0].level - k.nodes[l].level - k.nodes[r].level, 0
  {
    hide k.Valid, Eval, WellFormed, IsAppQuant, QuantContext;
    LevelBound(k.nodes, l);
    LevelBound(k.nodes, r);
    var left, right := k.nodes[l], k.nodes[r];
    var l0, r0, l1, r1;
    if left.level == right.level {
      v, l0, r0, l1, r1 := left.level, left.low, right.low, left.high, right.high;
    } else if left.level < right.level {
      v, l0, r0, l1, r1 := left.level, left.low, r, left.high, r;
    } else {
      v, l0, r0, l1, r1 := right.level, l, right.low, l, right.high;
    }
    ghost var t0 := k.nodes;
    lo := AppQuantRec(k, all, vars, l0, r0);
    ghost var t1 := k.nodes;
    ExtendContext(t0, t1, k.regs, all, vars);
    hi := AppQuantRec(k, all, vars, l1, r1);
    AppQuantHalvesFrom(t1, k.nodes, all, vars, k.regs.appexop, l, r, v, lo, hi);
  }

  /** Enters the variables of a set into the variable table, under a fresh generation. */
  method Varset2Vartable(k: Kernel, r: nat)
    requires k.Valid() && 2 <= r < |k.nodes| && k.regs.quantvarsetID < INT_MAX
    modifies k`regs
    ensures k.Valid() && k.regs.quantvarsetID < INT_MAX
    ensures |k.regs.quantvarset| == k.nodes[0].level
    ensures forall v :: 0 <= v < k.nodes[0].level ==>
      (k.regs.quantvarset[v] == k.regs.quantvarsetID <==> v in CubeVars(k.nodes, r))
    ensures forall v :: v in CubeVars(k.nodes, r) ==> v <= k.regs.quantlast
    ensures k.regs == old(k.regs).(quantvarset := k.regs.quantvarset, quantvarsetID := k.regs.quantvarsetID,
                                   quantlast := k.regs.quantlast)
  {
    hide k.Valid, WellFormed;
    k.NextGeneration(INT_MAX);
    var n: nat := r;
    ghost var done: set<nat> := {};
    while n > 1
      invariant k.Valid() && k.regs.quantvarsetID < INT_MAX
      invariant n < |k.nodes| && |k.regs.quantvarset| == k.nodes[0].level
      invariant CubeVars(k.nodes, r) == done + CubeVars(k.nodes, n)
      invariant forall v :: 0 <= v < k.nodes[0].level ==>
        (k.regs.quantvarset[v] == k.regs.quantvarsetID <==> v in done)
      invariant forall v :: v in done ==> v <= k.regs.quantlast < k.nodes[n].level
      invariant k.regs == old(k.regs).(quantvarset := k.regs.quantvarset, quantvarsetID := k.regs.quantvarsetID,
                                       quantlast := k.regs.quantlast)
      decreases k.nodes[0].level - k.nodes[n].level
    {
      LevelBound(k.nodes, n);
      var node := k.nodes[n];
      k.Mark(node.level, false);
      k.SetRegs(k.regs.(quantlast := node.level));
      done := done + {node.level};
      n := node.high;
    }
  }

  /** Node indices up to these bounds survive being packed into a C int next to the tag bits. */
  const QUANT_BOUND := 0x1000_0000
  const APPQUANT_BOUND := 0x80_0000

  lemma QuantIdFits(v: nat, all: bool)
    requires v < QUANT_BOUND
    ensures var id := QuantId(v, if all then CACHEID_FORALL else CACHEID_EXIST);
      id >= 0 && IdIsForall(id) == all && IdVarset(id) == v
  {
  }

  lemma AppQuantIdFits(v: nat, op: nat, all: bool)
    requires v < APPQUANT_BOUND && IsOp(op)
    ensures var id := AppexId(v, op, all);
      id >= 0 && (id % 2 == 1) == all && (id / 2) % 16 == op && id / 32 == v
    ensures var id := AppQuantId(v, op, all);
      id >= 0 && IdIsForall(id) == all && IdVarset(id) == v
  {
    var b := if all then 1 else 0;
    var tag := if all then CACHEID_APPAL else CACHEID_APPEX;
    var id := v * 32 + op * 2 + b;
    hide Int32;
    SmallInt32(id);
    SmallInt32(id * 8 + tag);
    PackedParts(v, op, b);
    TaggedParts(id, tag);
  }

  lemma TaggedParts(id: nat, tag: nat)
    requires tag < 8
    ensures (id * 8 + tag) % 8 == tag && (id * 8 + tag) / 256 == id / 32
  {
  }

  lemma SmallInt32(x: int)
    requires 0 <= x <= INT_MAX
    ensures Int32(x) == x
  {
  }

  lemma PackedParts(v: nat, op: nat, b: nat)
    requires op < 16 && b < 2
    ensures var id := v * 32 + op * 2 + b; id % 2 == b && (id / 2) % 16 == op && id / 32 == v
  {
  }

  /** Beyond the bound the packed ids of two variable sets fall together exactly when the sets are
      equal in the bits that are left. */
  lemma PackedIdsAgree(v1: nat, v2: nat, op: nat, all: bool)
    requires IsOp(op)
    ensures AppQuantId(v1, op, all) == AppQuantId(v2, op, all) <==> v1 % 0x100_0000 == v2 % 0x100_0000
  {
    var b := if all then 1 else 0;
    var tag := op * 16 + b * 8 + if all then CACHEID_APPAL else CACHEID_APPEX;
    Int32Congruent(v1 * 32 + op * 2 + b);
    Int32Congruent(v2 * 32 + op * 2 + b);
    WrapTwice(v1, op, all, tag);
    WrapTwice(v2, op, all, tag);
    Int32Equal(v1 * 256 + tag, v2 * 256 + tag);
    ScaledMod(v1, v2, tag);
  }

  lemma Int32Congruent(x: int)
    ensures Int32(x) % 0x1_0000_0000 == x % 0x1_0000_0000
  {
  }

  lemma Int32Equal(x: int, y: int)
    ensures Int32(x) == Int32(y) <==> x % 0x1_0000_0000 == y % 0x1_0000_0000
  {
  }

  lemma WrapTwice(v: nat, op: nat, all: bool, tag: nat)
    requires IsOp(op)
    requires tag == op * 16 + (if all then 1 else 0) * 8 + if all then CACHEID_APPAL else CACHEID_APPEX
    ensures AppQuantId(v, op, all) == Int32(v * 256 + tag)
  {
    var x := v * 32 + op * 2 + if all then 1 else 0;
    var c := if all then CACHEID_APPAL else CACHEID_APPEX;
    assert x * 8 + c == v * 256 + tag;
    Int32Congruent(x);
    assert (Int32(x) * 8 + c) % 0x1_0000_0000 == (x * 8 + c) % 0x1_0000_0000;
  }

  lemma ScaledMod(v1: nat, v2: nat, tag: nat)
    requires tag < 256
    ensures (v1 * 256 + tag) % 0x1_0000_0000 == (v2 * 256 + tag) % 0x1_0000_0000
       <==> v1 % 0x100_0000 == v2 % 0x100_0000
  {
    assert (v1 * 256 + tag) % 0x1_0000_0000 == (v1 % 0x100_0000) * 256 + tag;
    assert (v2 * 256 + tag) % 0x1_0000_0000 == (v2 % 0x100_0000) * 256 + tag;
  }

  /** bdd_exist (all false) and bdd_forall (all true): the variables of the set are quantified. */
  method Quantify(k: Kernel, all: bool, r: int, varset: int) returns (res: nat, err: int)
    requires k.Valid() && k.regs.quantvarsetID < INT_MAX && varset < QUANT_BOUND
    modifies k
    ensures k.Valid() && k.Kept() && k.regs.quantvarsetID < INT_MAX
    ensures err == if old(k.IsBdd(r)) && old(k.IsBdd(varset)) then 0 else BDD_ILLBDD
    ensures err != 0 ==> res == 0
    ensures err == 0 ==> IsQuant(k.nodes, all, CubeVars(k.nodes, varset), r, res)
  {
    hide k.Valid, Eval, WellFormed, IsQuant;
    if !k.IsBdd(r) || !k.IsBdd(varset) {
      return 0, BDD_ILLBDD;
    }
    err := 0;
    if varset < 2 {
      QuantBase(k.nodes, all, {}, r);
      return r, 0;
    }
    Varset2Vartable(k, varset);
    QuantIdFits(varset, all);
    k.SetRegs(k.regs.(quantid := QuantId(varset, if all then CACHEID_FORALL else CACHEID_EXIST),
                      applyop := if all then AND else OR));
    ghost var vars := CubeVars(k.nodes, varset);
    ghost var t := k.nodes;
    res := QuantRec(k, all, vars, r);
    ExtendCubeVars(t, k.nodes, varset);
  }

  /** bdd_appex (all false) and bdd_appall (all true): operator and quantification in one pass. */
  method AppQuantify(k: Kernel, all: bool, l: int, r: int, op: int, varset: int) returns (res: nat, err: int)
    requires k.Valid() && k.regs.quantvarsetID < INT_MAX && varset < APPQUANT_BOUND
    modifies k
    ensures k.Valid() && k.Kept() && k.regs.quantvarsetID < INT_MAX
    ensures err == if !old(k.IsBdd(l) && k.IsBdd(r) && k.IsBdd(varset)) then BDD_ILLBDD
                   else if !IsOp(op) then BDD_OP else 0
    ensures err != 0 ==> res == 0
    ensures err == 0 ==> IsAppQuant(k.nodes, all, CubeVars(k.nodes, varset), op, l, r, res)
  {
    hide k.Valid, Eval, WellFormed, IsAppQuant;
    if !k.IsBdd(l) || !k.IsBdd(r) || !k.IsBdd(varset) {
      return 0, BDD_ILLBDD;
    }
    if !IsOp(op) {
      return 0, BDD_OP;
    }
    ghost var t := k.nodes;
    if varset < 2 {
      res, err := Apply(k, l, r, op);
      LevelBound(k.nodes, res);
      AppQuantConstant(k.nodes, all, {}, op, l, r, res);
      return;
    }
    err := 0;
    Varset2Vartable(k, varset);
    AppQuantIdFits(varset, op, all);
    k.SetRegs(k.regs.(applyop := if all then AND else OR, appexop := op, appexid := AppexId(varset, op, all),
                      quantid := AppQuantId(varset, op, all)));
    ghost var vars := CubeVars(k.nodes, varset);
    res := AppQuantRec(k, all, vars, l, r);
    ExtendCubeVars(t, k.nodes, varset);
  }

  /** Fusing changes the work, not the node: quantifying after applying returns the same index. */
  method FusedOrNot(k: Kernel, all: bool, l: int, r: int, op: int, varset: int) returns (fused: nat, separate: nat)
    requires k.Valid() && k.regs.quantvarsetID < INT_MAX && varset < APPQUANT_BOUND
    requires k.IsBdd(l) && k.IsBdd(r) && k.IsBdd(varset) && IsOp(op)
    modifies k
    ensures k.Valid() && k.Kept()
    ensures fused == separate
  {
    hide k.Valid, Eval, WellFormed, IsAppQuant, IsApply, IsQuant;
    var err, applied;
    fused, err := AppQuantify(k, all, l, r, op, varset);
    ghost var t1 := k.nodes;
    ghost var vars := CubeVars(t1, varset);
    applied, err := Apply(k, l, r, op);
    ghost var t2 := k.nodes;
    separate, err := Quantify(k, all, applied, varset);
    ExtendCubeVars(t1, t2, varset);
    ExtendCubeVars(t2, k.nodes, varset);
    ExtendAppQuant(t1, k.nodes, all, vars, op, l, r, fused);
    ExtendApply(t2, k.nodes, op, l, r, applied);
    FusedSameNode(k.nodes, all, vars, op, l, r, applied, separate, fused);
  }
}
