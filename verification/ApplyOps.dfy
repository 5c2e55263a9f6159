/** Negation and the ten binary operators, memoised in one cache that they share with simplify. */
module ApplyOps {
  import opened Table
  import opened Meaning
  import opened Kernel
  import opened Options

  /** Operator results: row op, column left * 2 + right. */
  const OPRRES: seq<seq<nat>> :=
    [ [0, 0, 0, 1],
      [0, 1, 1, 0],
      [0, 1, 1, 1],
      [1, 1, 1, 0],
      [1, 0, 0, 0],
      [1, 1, 0, 1],
      [1, 0, 0, 1],
      [0, 0, 1, 0],
      [0, 1, 0, 0],
      [1, 0, 1, 1] ]

  /** The table of results is the documented truth table of each operator. */
  lemma TruthTable(op: int, l: nat, r: nat)
    requires IsOp(op) && l < 2 && r < 2
    ensures OPRRES[op][l * 2 + r] < 2
    ensures OPRRES[op][l * 2 + r] == 1 <==> Connective(op, l == 1, r == 1)
  {
  }

  method NotRec(k: Kernel, r: nat) returns (res: nat)
    requires k.Valid() && r < |k.nodes|
    modifies k
    ensures k.Valid() && k.Grown()
    ensures IsNot(k.nodes, r, res)
    decreases k.nodes[0].level - k.nodes[r].level
  {
    hide k.Valid, Eval, WellFormed, InnerOk, IsNot, IsBranch;
    NotBase(k.nodes);
    if r == 0 { return 1; }
    if r == 1 { return 0; }
    var slot := Slot(r, k.cachesize);
    var entry := k.LookupApply(slot);
    if entry.a == r && entry.c == NOT {
      return entry.res;
    }
    LevelBound(k.nodes, r);
    var node := k.nodes[r];
    var lo := NotRec(k, node.low);
    ghost var t1 := k.nodes;
    var hi := NotRec(k, node.high);
    ghost var t2 := k.nodes;
    NotReady(t1, t2, r, lo, hi);
    res := k.MakeNode(node.level, lo, hi);
    NotStep(t1, t2, k.nodes, r, lo, hi, res);
    entry := k.LookupApply(slot);
    k.StoreApply(slot, entry.(a := r, c := NOT, res := res));
  }

  /** The operand pairs that an operator answers at once. */
  function Shortcut(op: int, l: nat, r: nat): Option<nat>
    requires IsOp(op)
  {
    if op == AND then
      if l == r then Some(l)
      else if l == 0 || r == 0 then Some(0)
      else if l == 1 then Some(r)
      else if r == 1 then Some(l)
      else None
    else if op == OR then
      if l == r then Some(l)
      else if l == 1 || r == 1 then Some(1)
      else if l == 0 then Some(r)
      else if r == 0 then Some(l)
      else None
    else if op == XOR then
      if l == r then Some(0)
      else if l == 0 then Some(r)
      else if r == 0 then Some(l)
      else None
    else if op == NAND then
      if l == 0 || r == 0 then Some(1) else Terminal(op, l, r)
    else if op == NOR then
      if l == 1 || r == 1 then Some(0) else Terminal(op, l, r)
    else if op == IMP then
      if l == 0 then Some(1)
      else if l == 1 then Some(r)
      else if r == 1 then Some(1)
      else None
    else Terminal(op, l, r)
  }

  function Terminal(op: int, l: nat, r: nat): Option<nat>
    requires IsOp(op)
  {
    if l < 2 && r < 2 then Some(OPRRES[op][l * 2 + r]) else None
  }

  lemma ShortcutIsApply(t: seq<Node>, op: int, l: nat, r: nat)
    requires WellFormed(t) && IsOp(op) && l < |t| && r < |t|
    ensures match Shortcut(op, l, r) case Some(res) => IsApply(t, op, l, r, res) case None => l >= 2 || r >= 2
  {
    LevelBound(t, l);
    LevelBound(t, r);
    if l < 2 && r < 2 { TruthTable(op, l, r); }
  }

  method ApplyRec(k: Kernel, l: nat, r: nat) returns (res: nat)
    requires k.Valid() && l < |k.nodes| && r < |k.nodes| && IsOp(k.regs.applyop)
    modifies k
    ensures k.Valid() && k.Grown()
    ensures IsApply(k.nodes, k.regs.applyop, l, r, res)
    decreases 2 * k.nodes[0].level - k.nodes[l].level - k.nodes[r].level, 1
  {
    hide k.Valid, Eval, WellFormed, InnerOk, IsApply, IsBranch, AreHalves, Connective, Shortcut, TripleHash;
    var op := k.regs.applyop;
    ShortcutIsApply(k.nodes, op, l, r);
    var shortcut := Shortcut(op, l, r);
    if shortcut.Some? {
      return shortcut.value;
    }
    var slot := Slot(TripleHash(l, r, op), k.cachesize);
    var entry := k.LookupApply(slot);
    if entry.a == l && entry.b == r && entry.c == op {
      return entry.res;
    }
    var v, lo, hi := ApplyHalves(k, l, r);
    ghost var t := k.nodes;
    HalvesBelow(t, op, l, r, v, lo, hi);
    res := k.MakeNode(v, lo, hi);
    ApplyStep(t, k.nodes, op, l, r, v, lo, hi, res);
    k.StoreApply(slot, Entry(l, r, op, res));
  }

  /** The recursive calls of apply, by the relative order of the two top variables. */
  method ApplyHalves(k: Kernel, l: nat, r: nat) returns (v: nat, lo: nat, hi: nat)
    requires k.Valid() && l < |k.nodes| && r < |k.nodes| && IsOp(k.regs.applyop)
    requires l >= 2 || r >= 2
    modifies k
    ensures k.Valid() && k.Grown()
    ensures AreHalves(k.nodes, k.regs.applyop, l, r, v, lo, hi)
    decreases 2 * k.nodes[0].level - k.nodes[l].level - k.nodes[r].level, 0
  {
    hide k.Valid, Eval, WellFormed, IsApply, AreHalves, Connective;
    LevelBound(k.nodes, l);
    LevelBound(k.nodes, r);
    var left, right := k.nodes[l], k.nodes[r];
    ghost var t1;
    if left.level == right.level {
      v := left.level;
      lo := ApplyRec(k, left.low, right.low);
      t1 := k.nodes;
      hi := ApplyRec(k, left.high, right.high);
    } else if left.level < right.level {
      v := left.level;
      lo := ApplyRec(k, left.low, r);
      t1 := k.nodes;
      hi := ApplyRec(k, left.high, r);
    } else {
      v := right.level;
      lo := ApplyRec(k, l, right.low);
      t1 := k.nodes;
      hi := ApplyRec(k, l, right.high);
    }
    HalvesFrom(t1, k.nodes, k.regs.applyop, l, r, v, lo, hi);
  }

  /** bdd_not. */
  method Not(k: Kernel, r: int) returns (res: nat, err: int)
    requires k.Valid()
    modifies k
    ensures k.Valid() && k.Grown()
    ensures err == if old(k.IsBdd(r)) then 0 else BDD_ILLBDD
    ensures err != 0 ==> res == 0
    ensures err == 0 ==> IsNot(k.nodes, r, res)
  {
    if !k.IsBdd(r) {
      return 0, BDD_ILLBDD;
    }
    res := NotRec(k, r);
    err := 0;
  }

  /** bdd_apply. */
  method Apply(k: Kernel, l: int, r: int, op: int) returns (res: nat, err: int)
    requires k.Valid()
    modifies k
    ensures k.Valid() && k.Kept() && k.regs == old(k.regs).(applyop := k.regs.applyop)
    ensures err == if !old(k.IsBdd(l) && k.IsBdd(r)) then BDD_ILLBDD else if !IsOp(op) then BDD_OP else 0
    ensures err != 0 ==> res == 0
    ensures err == 0 ==> res < |k.nodes| && IsApply(k.nodes, op, l, r, res)
  {
    hide k.Valid, Eval, WellFormed, Connective;
    if !k.IsBdd(l) || !k.IsBdd(r) {
      return 0, BDD_ILLBDD;
    }
    if !IsOp(op) {
      return 0, BDD_OP;
    }
    k.SetRegs(k.regs.(applyop := op));
    res := ApplyRec(k, l, r);
    err := 0;
  }
}
