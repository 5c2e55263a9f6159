/** The state of the BDD package: the node table, the operator caches and the registers that the
    recursive operators share. */
module Kernel {
  import opened Table
  import opened Meaning
  import opened Quantification
  import opened CareSet
  import opened Substitution
  import opened Counting

  const INT_MAX := 0x7FFF_FFFF

  /** The largest number of variables, and the number of the pair ids. */
  const MAXVAR := 0x1F_FFFF
  const PAIR_IDS := 0x1FFF_FFFF

  /** Error codes of the public header. */
  const BDD_VAR := -2
  const BDD_RANGE := -3
  const BDD_FORMAT := -7
  const BDD_OP := -12
  const BDD_DECVNUM := -15
  const BDD_REPLACE := -16
  const BDD_ILLBDD := -18
  const BVEC_SIZE := -20
  const BVEC_SHIFT := -21
  const BVEC_DIVZERO := -22

  /** A slot of an operator cache; a is -1 while the slot is empty. */
  datatype Entry = Entry(a: int, b: int, c: int, res: int)

  const EMPTY_ENTRY := Entry(-1, 0, 0, 0)

  /** The contents of a replacement pair: the node that stands for each level, and the last level that
      was set. */
  datatype PairState = PairState(result: seq<nat>, last: int)

  /** A replacement pair.  Each change of its contents gives it another id. */
  datatype Pair = Pair(id: nat, state: PairState)

  /** The static variables of the operators. */
  datatype Registers = Registers(
    applyop: int,
    appexop: int,
    appexid: int,
    quantid: int,
    quantvarset: seq<int>,
    quantvarsetID: int,
    quantlast: int,
    replaceid: int,
    replacepair: seq<nat>,
    replacelast: int,
    composelevel: int,
    miscid: int)

  function Unsigned32(x: int): nat {
    x % 0x1_0000_0000
  }

  /** The Cantor pairing the hash functions use, in unsigned 32-bit arithmetic. */
  function PairHash(a: int, b: int): nat {
    var s := Unsigned32(a + b);
    Unsigned32(Unsigned32(s * Unsigned32(s + 1)) / 2 + a)
  }

  function TripleHash(a: int, b: int, c: int): nat {
    PairHash(c, PairHash(a, b))
  }

  function Slot(hash: nat, size: nat): (s: nat)
    requires size > 0
    ensures s < size
  {
    hash % size
  }

  /** What a live entry of each cache guarantees. */
  ghost predicate ApplyEntry(t: seq<Node>, e: Entry)
    requires WellFormed(t)
  {
    e.a >= 0 ==>
      && e.res >= 0
      && (IsOp(e.c) ==> e.b >= 0 && IsApply(t, e.c, e.a, e.b, e.res))
      && (e.c == NOT ==> IsNot(t, e.a, e.res))
      && (e.c == SIMPLIFY ==> e.b >= 0 && IsSimplify(t, e.a, e.b, e.res))
  }

  ghost predicate IteEntry(t: seq<Node>, e: Entry)
    requires WellFormed(t)
  {
    e.a >= 0 ==> e.b >= 0 && e.c >= 0 && e.res >= 0 && IsIte(t, e.a, e.b, e.c, e.res)
  }

  /** Tags packed into the low bits of cache ids. */
  const CACHEID_EXIST := 0
  const CACHEID_FORALL := 1
  const CACHEID_APPEX := 3
  const CACHEID_APPAL := 4

  const CACHEID_REPLACE := 0
  const CACHEID_COMPOSE := 1
  const CACHEID_VECCOMPOSE := 2

  const CACHEID_CONSTRAIN := 0
  const CACHEID_RESTRICT := 1
  const CACHEID_SATCOU := 2

  /** A C int that holds the two's complement of x. */
  function Int32(x: int): int {
    var m := x % 0x1_0000_0000;
    if m >= 0x8000_0000 then m - 0x1_0000_0000 else m
  }

  function QuantId(v: nat, tag: nat): int {
    Int32(v * 8 + tag)
  }

  function AppexId(v: nat, op: nat, all: bool): int {
    Int32(v * 32 + op * 2 + (if all then 1 else 0))
  }

  function AppQuantId(v: nat, op: nat, all: bool): int {
    Int32(AppexId(v, op, all) * 8 + if all then CACHEID_APPAL else CACHEID_APPEX)
  }

  /** Does the id of a quantification say that it is universal, and over which variable set? */
  predicate IdIsForall(id: nat) {
    id % 8 == CACHEID_FORALL || id % 8 == CACHEID_APPAL
  }

  function IdVarset(id: nat): nat {
    if id % 8 == CACHEID_EXIST || id % 8 == CACHEID_FORALL then id / 8 else id / 256
  }

  ghost predicate QuantEntry(t: seq<Node>, e: Entry)
    requires WellFormed(t)
  {
    e.a >= 0 ==>
      && e.res >= 0 && e.c >= 0 && IdVarset(e.c) < |t|
      && IsQuant(t, IdIsForall(e.c), CubeVars(t, IdVarset(e.c)), e.a, e.res)
  }

  ghost predicate AppexEntry(t: seq<Node>, e: Entry)
    requires WellFormed(t)
  {
    e.a >= 0 ==>
      && e.b >= 0 && e.res >= 0 && e.c >= 0 && e.c / 32 < |t| && IsOp((e.c / 2) % 16)
      && IsAppQuant(t, e.c % 2 == 1, CubeVars(t, e.c / 32), (e.c / 2) % 16, e.a, e.b, e.res)
  }

  /** The renaming that replace reads off a pair: only the top variable of each node is used. */
  function Levels(t: seq<Node>, result: seq<nat>): (ren: seq<nat>)
    requires forall i :: 0 <= i < |result| ==> result[i] < |t|
    ensures |ren| == |result|
    ensures forall i :: 0 <= i < |ren| ==> ren[i] == t[result[i]].level
  {
    seq(|result|, i requires 0 <= i < |result| => t[result[i]].level)
  }

  ghost predicate PairOk(t: seq<Node>, p: PairState)
    requires WellFormed(t)
  {
    && |p.result| == t[0].level
    && (forall i :: 0 <= i < |p.result| ==> p.result[i] < |t|)
    && (forall i :: 0 <= i < |p.result| && i > p.last ==> IsVar(t, i, p.result[i]))
    && -1 <= p.last < t[0].level
  }

  ghost predicate PairsOk(t: seq<Node>, pairs: map<nat, PairState>)
    requires WellFormed(t)
  {
    forall id :: id in pairs ==> PairOk(t, pairs[id])
  }

  ghost predicate ReplaceEntry(t: seq<Node>, pairs: map<nat, PairState>, e: Entry)
    requires WellFormed(t) && PairsOk(t, pairs)
  {
    e.a >= 0 ==>
      && e.res >= 0 && e.c >= 0
      && (e.c % 4 == CACHEID_REPLACE ==>
            && e.c / 4 in pairs && IsReplace(t, Levels(t, pairs[e.c / 4].result), e.a, e.res)
            && !Collides(t, Levels(t, pairs[e.c / 4].result), e.a))
      && (e.c % 4 == CACHEID_COMPOSE ==> e.b >= 0 && IsCompose(t, e.c / 4, e.a, e.b, e.res))
      && (e.c % 4 == CACHEID_VECCOMPOSE ==>
            e.c / 4 in pairs && IsVecCompose(t, pairs[e.c / 4].result, e.a, e.res))
  }

  /** A count that is on file is right unless counts are stale: made for fewer variables. */
  ghost predicate MiscEntry(t: seq<Node>, stale: bool, e: Entry)
    requires WellFormed(t)
  {
    e.a >= 0 ==>
      && e.res >= 0 && e.c >= 0
      && (e.c == CACHEID_CONSTRAIN ==> e.b >= 0 && IsConstrain(t, e.a, e.b, e.res))
      && (e.c % 8 == CACHEID_RESTRICT ==>
            && e.c / 8 < |t|
            && IsRestrict(t, PosVars(t, e.c / 8), NegVars(t, e.c / 8), e.a, e.res))
      && (e.c == CACHEID_SATCOU ==> e.a < |t| && (stale || e.res == Count(t, e.a)))
  }

  predicate IsCount(e: Entry) {
    e.a >= 0 && e.c == CACHEID_SATCOU
  }

  ghost predicate HasCount(table: seq<Entry>) {
    exists i :: 0 <= i < |table| && IsCount(table[i])
  }

  /** Every pair that is in use is known under its id, and no two share one. */
  ghost predicate RegistryOk(registry: seq<Pair>, pairs: map<nat, PairState>, pairsid: nat) {
    && pairsid < PAIR_IDS
    && (forall id :: id in pairs ==> id <= pairsid)
    && (forall i :: 0 <= i < |registry| ==> registry[i].id in pairs && pairs[registry[i].id] == registry[i].state)
    && (forall i, j :: 0 <= i < j < |registry| ==> registry[i].id != registry[j].id)
  }

  ghost predicate UniqueOk(t: seq<Node>, unique: map<Node, nat>) {
    && (forall i :: 2 <= i < |t| ==> t[i] in unique && unique[t[i]] == i)
    && (forall n :: n in unique ==> 2 <= unique[n] < |t| && t[unique[n]] == n)
  }

  ghost predicate VarsOk(t: seq<Node>, varset: seq<nat>, varnum: nat)
    requires WellFormed(t)
  {
    && |varset| == 2 * varnum
    && varnum == t[0].level
    && forall v :: 0 <= v < varnum ==> VarOk(t, varset, v)
  }

  ghost predicate VarOk(t: seq<Node>, varset: seq<nat>, v: nat)
    requires WellFormed(t) && 2 * v + 1 < |varset|
  {
    && IsVar(t, v, varset[2 * v])
    && 2 <= varset[2 * v + 1] < |t| && t[varset[2 * v + 1]] == Node(v, 1, 0)
  }

  ghost predicate IsNegatedVar(t: seq<Node>, v: nat, n: nat)
    requires WellFormed(t)
  {
    n < |t| && t[n].level == v && forall env :: Eval(t, n, env) == (v !in env)
  }

  lemma ExtendVars(t: seq<Node>, t': seq<Node>, varset: seq<nat>, varnum: nat)
    requires WellFormed(t) && WellFormed(t') && Extends(t, t') && t[0].level == t'[0].level && VarsOk(t, varset, varnum)
    ensures VarsOk(t', varset, varnum)
  {
    forall v | 0 <= v < varnum ensures VarOk(t', varset, v) {
      assert VarOk(t, varset, v);
    }
  }

  /** The variable table: no entry carries a generation that is yet to come. */
  ghost predicate GenerationOk(t: seq<Node>, regs: Registers)
    requires WellFormed(t)
  {
    && |regs.quantvarset| == t[0].level
    && 0 <= regs.quantvarsetID <= INT_MAX
    && forall v :: 0 <= v < |regs.quantvarset| ==> -regs.quantvarsetID <= regs.quantvarset[v] <= regs.quantvarsetID
  }

  lemma ExtendApplyEntry(t: seq<Node>, t': seq<Node>, e: Entry)
    requires WellFormed(t) && WellFormed(t') && Extends(t, t') && ApplyEntry(t, e)
    ensures ApplyEntry(t', e)
  {
    if e.a >= 0 {
      if IsOp(e.c) { ExtendApply(t, t', e.c, e.a, e.b, e.res); }
      if e.c == NOT { ExtendNot(t, t', e.a, e.res); }
      if e.c == SIMPLIFY { ExtendSimplify(t, t', e.a, e.b, e.res); }
    }
  }

  lemma ExtendIteEntry(t: seq<Node>, t': seq<Node>, e: Entry)
    requires WellFormed(t) && WellFormed(t') && Extends(t, t') && IteEntry(t, e)
    ensures IteEntry(t', e)
  {
    if e.a >= 0 { ExtendIte(t, t', e.a, e.b, e.c, e.res); }
  }

  lemma ExtendQuantEntry(t: seq<Node>, t': seq<Node>, e: Entry)
    requires WellFormed(t) && WellFormed(t') && Extends(t, t') && QuantEntry(t, e)
    ensures QuantEntry(t', e)
  {
    if e.a >= 0 {
      ExtendCubeVars(t, t', IdVarset(e.c));
      ExtendQuant(t, t', IdIsForall(e.c), CubeVars(t, IdVarset(e.c)), e.a, e.res);
    }
  }

  lemma ExtendAppexEntry(t: seq<Node>, t': seq<Node>, e: Entry)
    requires WellFormed(t) && WellFormed(t') && Extends(t, t') && AppexEntry(t, e)
    ensures AppexEntry(t', e)
  {
    if e.a >= 0 {
      ExtendCubeVars(t, t', e.c / 32);
      ExtendAppQuant(t, t', e.c % 2 == 1, CubeVars(t, e.c / 32), (e.c / 2) % 16, e.a, e.b, e.res);
    }
  }

  /** The contents of p in a table with more variables: the new ones stand for themselves. */
  ghost predicate Longer(t: seq<Node>, p: PairState, p': PairState) {
    && p.last == p'.last && p.result <= p'.result && |t| >= 2 && |p'.result| == t[0].level
    && forall i :: |p.result| <= i < |p'.result| ==> 2 <= p'.result[i] < |t| && t[p'.result[i]] == Node(i, 0, 1)
  }

  ghost predicate AllLonger(t: seq<Node>, pairs: map<nat, PairState>, pairs': map<nat, PairState>) {
    pairs'.Keys == pairs.Keys && forall id :: id in pairs ==> Longer(t, pairs[id], pairs'[id])
  }

  lemma SameLength(t: seq<Node>, pairs: map<nat, PairState>)
    requires WellFormed(t) && PairsOk(t, pairs)
    ensures AllLonger(t, pairs, pairs)
  {
    forall id | id in pairs ensures Longer(t, pairs[id], pairs[id]) {
      assert PairOk(t, pairs[id]);
    }
  }

  lemma ExtendPair(t: seq<Node>, t': seq<Node>, p: PairState, p': PairState)
    requires WellFormed(t) && WellFormed(t') && Extends(t, t') && PairOk(t, p) && Longer(t', p, p')
    ensures PairOk(t', p')
    ensures Wider(t, t', Levels(t, p.result), Levels(t', p'.result))
  {
    forall i | 0 <= i < |p.result|
      ensures t'[p.result[i]].level == if t[p.result[i]].level < t[0].level then t[p.result[i]].level else t'[0].level {
      LevelBound(t, p.result[i]);
    }
  }

  lemma ExtendPairs(t: seq<Node>, t': seq<Node>, pairs: map<nat, PairState>, pairs': map<nat, PairState>)
    requires WellFormed(t) && WellFormed(t') && Extends(t, t') && PairsOk(t, pairs) && AllLonger(t', pairs, pairs')
    ensures PairsOk(t', pairs')
  {
    forall id | id in pairs ensures PairOk(t', pairs'[id]) {
      ExtendPair(t, t', pairs[id], pairs'[id]);
    }
  }

  lemma ExtendReplaceEntry(t: seq<Node>, t': seq<Node>, pairs: map<nat, PairState>, pairs': map<nat, PairState>, e: Entry)
    requires WellFormed(t) && WellFormed(t') && Extends(t, t') && PairsOk(t, pairs) && ReplaceEntry(t, pairs, e)
    requires AllLonger(t', pairs, pairs') && PairsOk(t', pairs')
    ensures ReplaceEntry(t', pairs', e)
  {
    if e.a >= 0 {
      var id := e.c / 4;
      if e.c % 4 == CACHEID_REPLACE {
        ExtendPair(t, t', pairs[id], pairs'[id]);
        WidenReplace(t, t', Levels(t, pairs[id].result), Levels(t', pairs'[id].result), e.a, e.res);
      } else if e.c % 4 == CACHEID_COMPOSE {
        ExtendCompose(t, t', id, e.a, e.b, e.res);
      } else if e.c % 4 == CACHEID_VECCOMPOSE {
        ExtendPair(t, t', pairs[id], pairs'[id]);
        WidenVecCompose(t, t', pairs[id].result, pairs'[id].result, e.a, e.res);
      }
    }
  }

  /** Only counts depend on how many variables there are. */
  lemma ExtendMiscEntry(t: seq<Node>, t': seq<Node>, stale: bool, stale': bool, e: Entry)
    requires WellFormed(t) && WellFormed(t') && Extends(t, t') && MiscEntry(t, stale, e)
    requires stale || (t[0].level < t'[0].level && IsCount(e)) ==> stale'
    ensures MiscEntry(t', stale', e)
  {
    if e.a >= 0 {
      if e.c == CACHEID_CONSTRAIN {
        ExtendConstrain(t, t', e.a, e.b, e.res);
      } else if e.c % 8 == CACHEID_RESTRICT {
        ExtendLiterals(t, t', e.c / 8);
        ExtendRestrict(t, t', PosVars(t, e.c / 8), NegVars(t, e.c / 8), e.a, e.res);
      } else if e.c == CACHEID_SATCOU && !stale' {
        ExtendCount(t, t', e.a);
      }
    }
  }

  /** Adding a node that is not in the table yet, above its two different children. */
  lemma AppendNode(t: seq<Node>, n: Node)
    requires WellFormed(t)
    requires n.low < |t| && n.high < |t| && n.low != n.high
    requires n.level < t[n.low].level && n.level < t[n.high].level
    requires forall i :: 2 <= i < |t| ==> t[i] != n
    ensures WellFormed(t + [n])
  {
    var t' := t + [n];
    LevelBound(t, n.low);
    LevelBound(t, n.high);
    forall i | 2 <= i < |t'| ensures InnerOk(t', i) {
      if i < |t| { assert InnerOk(t, i); }
    }
  }

  lemma NodeBranches(t: seq<Node>, n: nat)
    requires WellFormed(t) && 2 <= n < |t|
    ensures InnerOk(t, n)
    ensures IsBranch(t, t[n].level, t[n].low, t[n].high, n)
  {
    assert InnerOk(t, n);
  }

  lemma AppendUnique(t: seq<Node>, unique: map<Node, nat>, n: Node)
    requires |t| >= 2 && UniqueOk(t, unique) && n !in unique
    ensures UniqueOk(t + [n], unique[n := |t|])
    ensures forall i :: 2 <= i < |t| ==> t[i] != n
  {
  }

  /** The table with one more variable: the constants move down a level, and the two nodes of the variable are
      new, since no node of that level exists. */
  function Raised(t: seq<Node>): (t': seq<Node>)
    requires |t| >= 2
    ensures |t'| == |t| + 2
  {
    var v := t[0].level;
    [Node(v + 1, 0, 0), Node(v + 1, 1, 1)] + t[2..] + [Node(v, 0, 1), Node(v, 1, 0)]
  }

  lemma RaisedInner(t: seq<Node>, i: nat)
    requires WellFormed(t) && 2 <= i < |t| + 2
    ensures InnerOk(Raised(t), i)
  {
    if i < |t| {
      LevelBound(t, i);
      LevelBound(t, t[i].low);
      LevelBound(t, t[i].high);
    }
  }

  lemma RaisedOk(t: seq<Node>)
    requires WellFormed(t)
    ensures WellFormed(Raised(t)) && Extends(t, Raised(t))
  {
    var t' := Raised(t);
    forall i | 2 <= i < |t'| ensures InnerOk(t', i) {
      RaisedInner(t, i);
    }
    forall i, j | 2 <= i < j < |t'| ensures t'[i] != t'[j] {
      if i < |t| { LevelBound(t, i); }
    }
  }

  lemma RaisedUnique(t: seq<Node>, unique: map<Node, nat>)
    requires WellFormed(t) && UniqueOk(t, unique)
    ensures var v := t[0].level; Node(v, 0, 1) !in unique && Node(v, 1, 0) !in unique
    ensures var v := t[0].level; UniqueOk(Raised(t), unique[Node(v, 0, 1) := |t|][Node(v, 1, 0) := |t| + 1])
  {
    forall n | n in unique ensures n.level < t[0].level {
      LevelBound(t, unique[n]);
    }
  }

  lemma RaisedVars(t: seq<Node>, varset: seq<nat>, varnum: nat)
    requires WellFormed(t) && WellFormed(Raised(t)) && VarsOk(t, varset, varnum)
    ensures VarsOk(Raised(t), varset + [|t|, |t| + 1], varnum + 1)
  {
    var varset' := varset + [|t|, |t| + 1];
    forall v | 0 <= v < varnum + 1 ensures VarOk(Raised(t), varset', v) {
      if v < varnum { assert VarOk(t, varset, v); }
    }
  }

  function Prolonged(p: PairState, node: nat): PairState {
    p.(result := p.result + [node])
  }

  function AllProlonged(pairs: map<nat, PairState>, node: nat): map<nat, PairState> {
    map id | id in pairs :: Prolonged(pairs[id], node)
  }

  /** The ids from 0 on, the latest pair first. */
  method Renumbered(registry: seq<Pair>) returns (numbered: seq<Pair>, ghost known: map<nat, PairState>)
    ensures |numbered| == |registry|
    ensures forall id :: id in known <==> 0 <= id < |registry|
    ensures forall id: nat :: id < |registry| ==> known[id] == registry[|registry| - 1 - id].state
    ensures forall i :: 0 <= i < |registry| ==> numbered[i] == Pair(|registry| - 1 - i, registry[i].state)
  {
    numbered, known := registry, map[];
    var pairsid := 0;
    for i := |registry| downto 0
      invariant |numbered| == |registry| && pairsid == |registry| - i
      invariant forall j :: i <= j < |registry| ==> numbered[j] == Pair(|registry| - 1 - j, registry[j].state)
      invariant forall j :: 0 <= j < i ==> numbered[j] == registry[j]
      invariant forall id :: id in known <==> 0 <= id < pairsid
      invariant forall id: nat :: id < pairsid ==> known[id] == registry[|registry| - 1 - id].state
    {
      known := known[pairsid := numbered[i].state];
      numbered := numbered[i := Pair(pairsid, numbered[i].state)];
      pairsid := pairsid + 1;
    }
  }

  lemma ProlongedLonger(t: seq<Node>, pairs: map<nat, PairState>)
    requires WellFormed(t) && PairsOk(t, pairs)
    ensures AllLonger(Raised(t), pairs, AllProlonged(pairs, |t|))
  {
    forall id | id in pairs ensures Longer(Raised(t), pairs[id], Prolonged(pairs[id], |t|)) {
      assert PairOk(t, pairs[id]);
    }
  }

  ghost predicate RegistryProlonged(registry: seq<Pair>, resized: seq<Pair>, node: nat) {
    && |resized| == |registry|
    && forall i :: 0 <= i < |registry| ==> resized[i] == Pair(registry[i].id, Prolonged(registry[i].state, node))
  }

  lemma ProlongedResults(registry: seq<Pair>, resized: seq<Pair>, node: nat)
    requires RegistryProlonged(registry, resized, node)
    ensures |resized| == |registry| && forall i :: 0 <= i < |registry| ==>
      && resized[i].id == registry[i].id && resized[i].state.last == registry[i].state.last
      && registry[i].state.result <= resized[i].state.result
  {
  }

  lemma ProlongedRegistry(registry: seq<Pair>, pairs: map<nat, PairState>, pairsid: nat, node: nat, resized: seq<Pair>)
    requires RegistryOk(registry, pairs, pairsid) && RegistryProlonged(registry, resized, node)
    ensures RegistryOk(resized, AllProlonged(pairs, node), pairsid)
  {
  }

  /** bdd_pairs_resize: one more variable, standing for itself. */
  method ResizePairs(registry: seq<Pair>, node: nat) returns (resized: seq<Pair>)
    ensures RegistryProlonged(registry, resized, node)
  {
    resized := registry;
    for i := 0 to |registry|
      invariant |resized| == |registry|
      invariant forall j :: 0 <= j < i ==> resized[j] == Pair(registry[j].id, Prolonged(registry[j].state, node))
      invariant forall j :: i <= j < |registry| ==> resized[j] == registry[j]
    {
      resized := resized[i := Pair(resized[i].id, Prolonged(resized[i].state, node))];
    }
  }

  /** An empty slot promises nothing. */
  lemma EmptyEntries(t: seq<Node>, pairs: map<nat, PairState>, stale: bool)
    requires WellFormed(t) && PairsOk(t, pairs)
    ensures forall e: Entry :: e.a < 0 ==>
      ApplyEntry(t, e) && IteEntry(t, e) && QuantEntry(t, e) && AppexEntry(t, e) && ReplaceEntry(t, pairs, e) &&
      MiscEntry(t, stale, e)
  {
  }

  predicate Cleared(table: seq<Entry>, cleared: seq<Entry>) {
    |cleared| == |table| && forall i :: 0 <= i < |table| ==> cleared[i] == table[i].(a := -1)
  }

  /** No slot of the table is live. */
  predicate Unused(table: seq<Entry>, size: nat) {
    |table| == size && forall n :: 0 <= n < size ==> table[n].a == -1
  }

  /** BddCache_init and BddCache_resize: a table with nothing live in it. */
  method NewTable(size: nat) returns (table: seq<Entry>)
    ensures Unused(table, size)
  {
    table := [];
    for n := 0 to size
      invariant |table| == n && forall i :: 0 <= i < n ==> table[i].a == -1
    {
      table := table + [EMPTY_ENTRY];
    }
  }

  /** BddCache_reset. */
  method Reset(table: seq<Entry>) returns (cleared: seq<Entry>)
    ensures Cleared(table, cleared) && Unused(cleared, |table|)
  {
    cleared := table;
    for n := 0 to |table|
      invariant |cleared| == |table|
      invariant forall i :: 0 <= i < |table| ==> cleared[i] == if i < n then table[i].(a := -1) else table[i]
    {
      cleared := cleared[n := cleared[n].(a := -1)];
    }
  }

  /** Every live slot of the six caches is right. */
  ghost predicate EntriesOk(t: seq<Node>, pairs: map<nat, PairState>, stale: bool, size: nat, apply: seq<Entry>,
                            ite: seq<Entry>, quant: seq<Entry>, appex: seq<Entry>, replace: seq<Entry>, misc: seq<Entry>)
    requires WellFormed(t) && PairsOk(t, pairs)
  {
    && size > 0
    && |apply| == |ite| == |quant| == size && |appex| == |replace| == |misc| == size
    && (forall i :: 0 <= i < size ==> ApplyEntry(t, apply[i]))
    && (forall i :: 0 <= i < size ==> IteEntry(t, ite[i]))
    && (forall i :: 0 <= i < size ==> QuantEntry(t, quant[i]))
    && (forall i :: 0 <= i < size ==> AppexEntry(t, appex[i]))
    && (forall i :: 0 <= i < size ==> ReplaceEntry(t, pairs, replace[i]))
    && (forall i :: 0 <= i < size ==> MiscEntry(t, stale, misc[i]))
  }

  /** Caches and pairs keep what they guarantee when the table grows. */
  lemma Promote(t: seq<Node>, t': seq<Node>, pairs: map<nat, PairState>, pairs': map<nat, PairState>, stale: bool,
                stale': bool, size: nat, apply: seq<Entry>, ite: seq<Entry>, quant: seq<Entry>, appex: seq<Entry>,
                replace: seq<Entry>, misc: seq<Entry>)
    requires WellFormed(t) && WellFormed(t') && Extends(t, t')
    requires PairsOk(t, pairs) && AllLonger(t', pairs, pairs')
    requires stale || (t[0].level < t'[0].level && HasCount(misc)) ==> stale'
    requires EntriesOk(t, pairs, stale, size, apply, ite, quant, appex, replace, misc)
    ensures PairsOk(t', pairs') && EntriesOk(t', pairs', stale', size, apply, ite, quant, appex, replace, misc)
  {
    ExtendPairs(t, t', pairs, pairs');
    forall i | 0 <= i < size
      ensures ApplyEntry(t', apply[i])
      ensures IteEntry(t', ite[i])
      ensures QuantEntry(t', quant[i])
      ensures AppexEntry(t', appex[i])
      ensures ReplaceEntry(t', pairs', replace[i])
      ensures MiscEntry(t', stale', misc[i])
    {
      ExtendApplyEntry(t, t', apply[i]);
      ExtendIteEntry(t, t', ite[i]);
      ExtendQuantEntry(t, t', quant[i]);
      ExtendAppexEntry(t, t', appex[i]);
      ExtendReplaceEntry(t, t', pairs, pairs', replace[i]);
      ExtendMiscEntry(t, t', stale, stale', misc[i]);
    }
  }

  class Kernel {
    var nodes: seq<Node>
    var unique: map<Node, nat>
    var varnum: nat
    var varset: seq<nat>
    var applyCache: seq<Entry>
    var iteCache: seq<Entry>
    var quantCache: seq<Entry>
    var appexCache: seq<Entry>
    var replaceCache: seq<Entry>
    var miscCache: seq<Entry>
    var cachesize: nat
    var regs: Registers
    var pairsid: nat
    var registry: seq<Pair>
    ghost var pairs: map<nat, PairState>
    ghost var stale: bool

    ghost predicate TableOk()
      reads this`nodes, this`unique, this`varnum, this`varset, this`regs, this`pairsid, this`registry, this`pairs
    {
      && WellFormed(nodes)
      && varnum <= MAXVAR
      && UniqueOk(nodes, unique)
      && VarsOk(nodes, varset, varnum)
      && GenerationOk(nodes, regs)
      && PairsOk(nodes, pairs)
      && RegistryOk(registry, pairs, pairsid)
    }

    ghost predicate CachesOk()
      requires WellFormed(nodes) && PairsOk(nodes, pairs)
      reads this
    {
      EntriesOk(nodes, pairs, stale, cachesize, applyCache, iteCache, quantCache, appexCache, replaceCache, miscCache)
    }

    /** The table is ordered, reduced and shared, and every live cache entry is right. */
    ghost predicate Valid()
      reads this
      ensures Valid() ==> WellFormed(nodes) && PairsOk(nodes, pairs) && cachesize > 0 && varnum == nodes[0].level <= MAXVAR
    {
      TableOk() && CachesOk()
    }

    /** Nothing an operator promised before is lost. */
    twostate predicate Kept()
      reads this
    {
      && old(nodes) <= nodes
      && varnum == old(varnum) && varset == old(varset)
      && pairs == old(pairs) && pairsid == old(pairsid) && registry == old(registry) && stale == old(stale)
    }

    /** As above, and inside one operator: the registers and the size of the caches stay. */
    twostate predicate Grown()
      reads this
    {
      Kept() && regs == old(regs) && cachesize == old(cachesize)
    }

    /** The argument check that every public operator makes. */
    predicate IsBdd(n: int)
      reads this
    {
      0 <= n < |nodes|
    }

    /** After more variables: every node and every pair is still there. */
    twostate predicate Widened()
      reads this
    {
      && Extends(old(nodes), nodes)
      && old(varnum) <= varnum && old(varset) <= varset
      && pairsid == old(pairsid) && |registry| == |old(registry)|
      && forall i :: 0 <= i < |registry| ==>
        && registry[i].id == old(registry)[i].id && registry[i].state.last == old(registry)[i].state.last
        && old(registry)[i].state.result <= registry[i].state.result
    }

    /** bdd_init: the two constants, and empty caches.  The size of a cache is the prime that is chosen for it. */
    constructor (size: nat)
      requires size > 0
      ensures Valid()
      ensures varnum == 0 && |nodes| == 2 && registry == [] && !stale
      ensures Unused(applyCache, size) && Unused(iteCache, size) && Unused(quantCache, size)
      ensures Unused(appexCache, size) && Unused(replaceCache, size) && Unused(miscCache, size)
    {
      var a := NewTable(size);
      var b := NewTable(size);
      var c := NewTable(size);
      var d := NewTable(size);
      var e := NewTable(size);
      var f := NewTable(size);
      varnum := 0;
      varset := [];
      nodes := [Node(0, 0, 0), Node(0, 1, 1)];
      unique := map[];
      cachesize := size;
      applyCache, iteCache, quantCache, appexCache, replaceCache, miscCache := a, b, c, d, e, f;
      regs := Registers(0, 0, 0, 0, [], 0, 0, 0, [], 0, 0, 0);
      pairsid := 0;
      registry := [];
      pairs := map[];
      stale := false;
    }

    /** bdd_setvarnum: the number of variables can only grow.  No cache is reset. */
    method SetVarNum(num: int) returns (err: int)
      requires Valid()
      modifies this
      ensures Valid() && Widened()
      ensures err == if !(1 <= num <= MAXVAR) then BDD_RANGE else if num < old(varnum) then BDD_DECVNUM else 0
      ensures varnum == if err == 0 then num else old(varnum)
      ensures varnum == old(varnum) ==> Kept()
      ensures |nodes| == |old(nodes)| + 2 * (varnum - old(varnum))
      ensures cachesize == old(cachesize) && miscCache == old(miscCache)
      ensures stale <==> old(stale) || (varnum > old(varnum) && HasCount(miscCache))
    {
      hide Valid, HasCount;
      if num < 1 || num > MAXVAR {
        return BDD_RANGE;
      }
      if num < varnum {
        return BDD_DECVNUM;
      }
      while varnum < num
        invariant Valid() && Widened() && varnum <= num
        invariant varnum == old(varnum) ==> Kept()
        invariant |nodes| == |old(nodes)| + 2 * (varnum - old(varnum))
        invariant cachesize == old(cachesize) && miscCache == old(miscCache)
        invariant stale <==> old(stale) || (varnum > old(varnum) && HasCount(miscCache))
      {
        AddVariable();
      }
      err := 0;
    }

    /** One more variable: its two nodes, a new variable table, and its place in every pair. */
    method AddVariable()
      requires Valid() && varnum < MAXVAR
      modifies this
      ensures Valid() && Widened() && varnum == old(varnum) + 1 && |nodes| == |old(nodes)| + 2
      ensures cachesize == old(cachesize) && miscCache == old(miscCache)
      ensures stale <==> old(stale) || HasCount(miscCache)
    {
      hide Valid, HasCount, AllProlonged, Raised, RegistryProlonged;
      ghost var t, unique0, varset0, registry0, pairs0, stale0 := nodes, unique, varset, registry, pairs, stale;
      Snapshot();
      RaisedOk(t);
      WriteVariable();
      ProlongedResults(registry0, registry, |t|);
      OneMoreVariable(t, unique0, varset0, registry0, pairs0, stale0);
    }

    method WriteVariable()
      requires |nodes| >= 2
      modifies this`nodes, this`unique, this`varset, this`varnum, this`regs, this`registry, this`pairs, this`stale
      ensures nodes == Raised(old(nodes)) && varset == old(varset) + [|old(nodes)|, |old(nodes)| + 1]
      ensures varnum == old(varnum) + 1
      ensures unique == old(unique)[Node(old(varnum), 0, 1) := |old(nodes)|][Node(old(varnum), 1, 0) := |old(nodes)| + 1]
      ensures regs == old(regs).(quantvarset := seq(varnum, _ => 0), quantvarsetID := 0)
      ensures RegistryProlonged(old(registry), registry, |old(nodes)|)
      ensures pairs == AllProlonged(old(pairs), |old(nodes)|)
      ensures stale <==> old(stale) || HasCount(miscCache)
    {
      hide HasCount, AllProlonged;
      var positive, negative := |nodes|, |nodes| + 1;
      nodes := Raised(nodes);
      unique := unique[Node(varnum, 0, 1) := positive][Node(varnum, 1, 0) := negative];
      varset := varset + [positive, negative];
      varnum := varnum + 1;
      registry := ResizePairs(registry, positive);
      pairs := AllProlonged(pairs, positive);
      regs := regs.(quantvarset := seq(varnum, _ => 0), quantvarsetID := 0);
      stale := stale || HasCount(miscCache);
    }

    /** Everything that holds of the fields, piece by piece. */
    ghost predicate Pieces(t: seq<Node>, unique: map<Node, nat>, varset: seq<nat>, varnum: nat, registry: seq<Pair>,
                           pairs: map<nat, PairState>, stale: bool)
      reads this
    {
      && WellFormed(t) && UniqueOk(t, unique) && VarsOk(t, varset, varnum)
      && PairsOk(t, pairs) && RegistryOk(registry, pairs, pairsid)
      && EntriesOk(t, pairs, stale, cachesize, applyCache, iteCache, quantCache, appexCache, replaceCache, miscCache)
    }

    lemma Snapshot()
      requires Valid()
      ensures Pieces(nodes, unique, varset, varnum, registry, pairs, stale)
    {
    }

    lemma OneMoreVariable(t: seq<Node>, unique0: map<Node, nat>, varset0: seq<nat>, registry0: seq<Pair>,
                          pairs0: map<nat, PairState>, stale0: bool)
      requires 0 < varnum <= MAXVAR && Pieces(t, unique0, varset0, varnum - 1, registry0, pairs0, stale0)
      requires nodes == Raised(t) && varset == varset0 + [|t|, |t| + 1]
      requires unique == unique0[Node(varnum - 1, 0, 1) := |t|][Node(varnum - 1, 1, 0) := |t| + 1]
      requires RegistryProlonged(registry0, registry, |t|) && pairs == AllProlonged(pairs0, |t|)
      requires |regs.quantvarset| == varnum && regs.quantvarsetID == 0
      requires forall v :: 0 <= v < varnum ==> regs.quantvarset[v] == 0
      requires stale <==> stale0 || HasCount(miscCache)
      ensures Valid()
    {
      hide UniqueOk, PairsOk, RegistryOk, AllLonger, HasCount, AllProlonged, EntriesOk;
      RaisedOk(t);
      RaisedUnique(t, unique0);
      RaisedVars(t, varset0, varnum - 1);
      ProlongedRegistry(registry0, pairs0, pairsid, |t|, registry);
      ProlongedLonger(t, pairs0);
      Promote(t, nodes, pairs0, pairs, stale0, stale, cachesize, applyCache, iteCache, quantCache, appexCache,
              replaceCache, miscCache);
    }

    /** bdd_ithvar. */
    method IthVar(v: int) returns (res: nat, err: int)
      requires Valid()
      ensures err == if 0 <= v < varnum then 0 else BDD_VAR
      ensures err != 0 ==> res == 0
      ensures err == 0 ==> IsVar(nodes, v, res)
    {
      if v < 0 || v >= varnum {
        return 0, BDD_VAR;
      }
      assert VarOk(nodes, varset, v);
      return varset[v * 2], 0;
    }

    /** bdd_nithvar. */
    method NithVar(v: int) returns (res: nat, err: int)
      requires Valid()
      ensures err == if 0 <= v < varnum then 0 else BDD_VAR
      ensures err != 0 ==> res == 0
      ensures err == 0 ==> IsNegatedVar(nodes, v, res)
    {
      if v < 0 || v >= varnum {
        return 0, BDD_VAR;
      }
      assert VarOk(nodes, varset, v);
      return varset[v * 2 + 1], 0;
    }

    lemma SameSize()
      requires Valid()
      ensures TableOk() && cachesize > 0
      ensures |applyCache| == |iteCache| == |quantCache| == cachesize
      ensures |appexCache| == |replaceCache| == |miscCache| == cachesize
    {
    }

    lemma EmptyCaches()
      requires TableOk() && cachesize > 0
      requires Unused(applyCache, cachesize) && Unused(iteCache, cachesize) && Unused(quantCache, cachesize)
      requires Unused(appexCache, cachesize) && Unused(replaceCache, cachesize) && Unused(miscCache, cachesize)
      ensures Valid()
    {
      hide WellFormed, UniqueOk, VarsOk, GenerationOk, PairsOk;
      hide ApplyEntry, IteEntry, QuantEntry, AppexEntry, ReplaceEntry, MiscEntry;
      EmptyEntries(nodes, pairs, stale);
    }

    /** Puts six tables without live slots in the place of the caches. */
    method InstallCaches(a: seq<Entry>, b: seq<Entry>, c: seq<Entry>, d: seq<Entry>, e: seq<Entry>, f: seq<Entry>, size: nat)
      requires Valid() && size > 0
      requires Unused(a, size) && Unused(b, size) && Unused(c, size)
      requires Unused(d, size) && Unused(e, size) && Unused(f, size)
      modifies this`applyCache, this`iteCache, this`quantCache, this`appexCache, this`replaceCache, this`miscCache
      modifies this`cachesize, this`stale
      ensures Valid() && cachesize == size && !stale
      ensures applyCache == a && iteCache == b && quantCache == c
      ensures appexCache == d && replaceCache == e && miscCache == f
    {
      hide Valid, TableOk, CachesOk, Unused;
      SameSize();
      applyCache, iteCache, quantCache, appexCache, replaceCache, miscCache, cachesize := a, b, c, d, e, f, size;
      stale := false;
      EmptyCaches();
    }

    /** bdd_operator_reset: every slot becomes empty. */
    method ResetCaches()
      requires Valid()
      modifies this`applyCache, this`iteCache, this`quantCache, this`appexCache, this`replaceCache, this`miscCache
      modifies this`cachesize, this`stale
      ensures Valid() && cachesize == old(cachesize) && !stale
      ensures Unused(applyCache, cachesize) && Unused(iteCache, cachesize) && Unused(quantCache, cachesize)
      ensures Unused(appexCache, cachesize) && Unused(replaceCache, cachesize) && Unused(miscCache, cachesize)
      ensures Cleared(old(applyCache), applyCache) && Cleared(old(iteCache), iteCache)
      ensures Cleared(old(quantCache), quantCache) && Cleared(old(appexCache), appexCache)
      ensures Cleared(old(replaceCache), replaceCache) && Cleared(old(miscCache), miscCache)
    {
      hide Valid, Unused, Cleared;
      SameSize();
      var a := Reset(applyCache);
      var b := Reset(iteCache);
      var c := Reset(quantCache);
      var d := Reset(appexCache);
      var e := Reset(replaceCache);
      var f := Reset(miscCache);
      InstallCaches(a, b, c, d, e, f, cachesize);
    }

    /** bdd_operator_noderesize: new tables of another size, all slots empty. */
    method ResizeCaches(size: nat)
      requires Valid() && size > 0
      modifies this`applyCache, this`iteCache, this`quantCache, this`appexCache, this`replaceCache, this`miscCache
      modifies this`cachesize, this`stale
      ensures Valid() && cachesize == size && !stale
      ensures Unused(applyCache, size) && Unused(iteCache, size) && Unused(quantCache, size)
      ensures Unused(appexCache, size) && Unused(replaceCache, size) && Unused(miscCache, size)
    {
      hide Valid, Unused;
      var a := NewTable(size);
      var b := NewTable(size);
      var c := NewTable(size);
      var d := NewTable(size);
      var e := NewTable(size);
      var f := NewTable(size);
      InstallCaches(a, b, c, d, e, f, size);
    }

    /** bdd_makenode: the node that tests level, found or built. */
    method MakeNode(level: nat, low: nat, high: nat) returns (res: nat)
      requires Valid()
      requires low < |nodes| && high < |nodes|
      requires level < nodes[low].level && level < nodes[high].level
      modifies this
      ensures Valid() && Grown()
      ensures IsBranch(nodes, level, low, high, res)
      ensures low == high ==> res == low
      ensures low != high ==> 2 <= res < |nodes| && nodes[res] == Node(level, low, high)
    {
      if low == high {
        res := low;
        return;
      }
      var n := Node(level, low, high);
      if n in unique {
        res := unique[n];
        NodeBranches(nodes, res);
        return;
      }
      ghost var t := nodes;
      res := |nodes|;
      AppendUnique(nodes, unique, n);
      AppendNode(nodes, n);
      nodes := nodes + [n];
      unique := unique[n := res];
      NodeBranches(nodes, res);
      ExtendVars(t, nodes, varset, varnum);
      SameLength(t, pairs);
      Promote(t, nodes, pairs, pairs, stale, stale, cachesize, applyCache, iteCache, quantCache, appexCache,
              replaceCache, miscCache);
    }

    /** Writes one entry of the variable table with the current generation, positive or negative. */
    method Mark(v: nat, negative: bool)
      requires Valid() && v < nodes[0].level
      modifies this`regs
      ensures Valid()
      ensures v < |old(regs).quantvarset|
      ensures var id := if negative then -old(regs).quantvarsetID else old(regs).quantvarsetID;
        regs == old(regs).(quantvarset := old(regs).quantvarset[v := id])
    {
      var id := if negative then -regs.quantvarsetID else regs.quantvarsetID;
      regs := regs.(quantvarset := regs.quantvarset[v := id]);
    }

    /** Starts a new generation of the variable table.  At reset the whole table is cleared, so that
        no entry of an earlier generation is taken for a new one. */
    method NextGeneration(reset: int)
      requires Valid() && regs.quantvarsetID < INT_MAX && reset > 1
      modifies this`regs
      ensures Valid()
      ensures regs == old(regs).(quantvarset := regs.quantvarset, quantvarsetID := regs.quantvarsetID)
      ensures 0 < regs.quantvarsetID && regs.quantvarsetID != reset
      ensures old(regs).quantvarsetID < reset ==> regs.quantvarsetID < reset
      ensures |regs.quantvarset| == nodes[0].level
      ensures forall v :: 0 <= v < |regs.quantvarset| ==>
        regs.quantvarset[v] != regs.quantvarsetID && regs.quantvarset[v] != -regs.quantvarsetID
    {
      regs := regs.(quantvarsetID := regs.quantvarsetID + 1);
      if regs.quantvarsetID == reset {
        regs := regs.(quantvarset := seq(nodes[0].level, _ => 0), quantvarsetID := 1);
      }
    }

    lemma KnownOk(known: map<nat, PairState>)
      requires Valid() && forall id :: id in known ==> 0 <= id < |registry| && known[id] == registry[|registry| - 1 - id].state
      ensures PairsOk(nodes, known)
    {
      forall id | id in known ensures PairOk(nodes, known[id]) {
        assert registry[|registry| - 1 - id].id in pairs;
      }
    }

    /** New ids for all pairs, while nothing is on file under any id. */
    method RenumberPairs()
      requires Valid() && |registry| < PAIR_IDS
      requires Unused(applyCache, cachesize) && Unused(iteCache, cachesize) && Unused(quantCache, cachesize)
      requires Unused(appexCache, cachesize) && Unused(replaceCache, cachesize) && Unused(miscCache, cachesize)
      modifies this`pairsid, this`registry, this`pairs
      ensures Valid() && pairsid == |registry| == |old(registry)|
      ensures forall id :: id in pairs <==> 0 <= id < |registry|
      ensures forall i :: 0 <= i < |registry| ==> registry[i] == Pair(|registry| - 1 - i, old(registry)[i].state)
    {
      hide CachesOk, WellFormed, UniqueOk, VarsOk, GenerationOk, PairOk, Unused;
      var numbered, known := Renumbered(registry);
      KnownOk(known);
      pairsid, pairs, registry := |registry|, known, numbered;
      EmptyCaches();
    }

    /** update_pairsid: an id under which nothing is on file.  When the ids are used up the pairs are numbered
        anew, the latest first, and every cache is reset. */
    method NewPairId(ghost p: PairState) returns (id: nat)
      requires Valid() && PairOk(nodes, p) && |registry| < PAIR_IDS
      modifies this`pairsid, this`registry, this`pairs, this`stale, this`cachesize
      modifies this`applyCache, this`iteCache, this`quantCache, this`appexCache, this`replaceCache, this`miscCache
      ensures Valid() && cachesize == old(cachesize)
      ensures id == pairsid && id in pairs && pairs[id] == p
      ensures |registry| == |old(registry)| && forall i :: 0 <= i < |registry| ==>
        registry[i].id != id && registry[i].state == old(registry)[i].state
      ensures old(pairsid) + 1 < PAIR_IDS ==>
        id == old(pairsid) + 1 && registry == old(registry) && replaceCache == old(replaceCache)
      ensures old(pairsid) + 1 == PAIR_IDS ==> id == |registry| && Unused(replaceCache, cachesize)
    {
      if pairsid + 1 == PAIR_IDS {
        ResetCaches();
        RenumberPairs();
      } else {
        pairsid := pairsid + 1;
      }
      id := pairsid;
      pairs := pairs[id := p];
    }

    /** Puts a pair under its id in the list, in the place of another or at the end. */
    method FilePair(pair: nat, p: Pair)
      requires Valid() && pair <= |registry| && p.id in pairs && pairs[p.id] == p.state
      requires forall i :: 0 <= i < |registry| ==> registry[i].id != p.id
      modifies this`registry
      ensures Valid()
      ensures registry == if pair < |old(registry)| then old(registry)[pair := p] else old(registry) + [p]
    {
      hide WellFormed, UniqueOk, VarsOk, GenerationOk, PairsOk, EntriesOk;
      registry := if pair < |registry| then registry[pair := p] else registry + [p];
    }

    /** Changes registers other than the variable table and its generation. */
    method SetRegs(r: Registers)
      requires Valid() && r.quantvarset == regs.quantvarset && r.quantvarsetID == regs.quantvarsetID
      modifies this`regs
      ensures Valid() && regs == r
    {
      regs := r;
    }

    /** The slots of the operator caches: what is read from a live one is right, and what is written
        must be. */
    method LookupApply(slot: nat) returns (e: Entry)
      requires Valid() && slot < cachesize
      ensures slot < |applyCache| && e == applyCache[slot] && ApplyEntry(nodes, e)
      ensures e.a >= 0 ==> e.res >= 0
    {
      e := applyCache[slot];
    }

    method StoreApply(slot: nat, e: Entry)
      requires Valid() && slot < cachesize && ApplyEntry(nodes, e)
      modifies this`applyCache
      ensures Valid()
      ensures slot < |old(applyCache)| && applyCache == old(applyCache)[slot := e]
    {
      applyCache := applyCache[slot := e];
    }

    method LookupIte(slot: nat) returns (e: Entry)
      requires Valid() && slot < cachesize
      ensures slot < |iteCache| && e == iteCache[slot] && IteEntry(nodes, e)
      ensures e.a >= 0 ==> e.res >= 0
    {
      e := iteCache[slot];
    }

    method StoreIte(slot: nat, e: Entry)
      requires Valid() && slot < cachesize && IteEntry(nodes, e)
      modifies this`iteCache
      ensures Valid()
      ensures slot < |old(iteCache)| && iteCache == old(iteCache)[slot := e]
    {
      iteCache := iteCache[slot := e];
    }

    method LookupQuant(slot: nat) returns (e: Entry)
      requires Valid() && slot < cachesize
      ensures slot < |quantCache| && e == quantCache[slot] && QuantEntry(nodes, e)
      ensures e.a >= 0 ==> e.res >= 0
    {
      e := quantCache[slot];
    }

    method StoreQuant(slot: nat, e: Entry)
      requires Valid() && slot < cachesize && QuantEntry(nodes, e)
      modifies this`quantCache
      ensures Valid()
      ensures slot < |old(quantCache)| && quantCache == old(quantCache)[slot := e]
    {
      quantCache := quantCache[slot := e];
    }

    method LookupAppex(slot: nat) returns (e: Entry)
      requires Valid() && slot < cachesize
      ensures slot < |appexCache| && e == appexCache[slot] && AppexEntry(nodes, e)
      ensures e.a >= 0 ==> e.res >= 0
    {
      e := appexCache[slot];
    }

    method StoreAppex(slot: nat, e: Entry)
      requires Valid() && slot < cachesize && AppexEntry(nodes, e)
      modifies this`appexCache
      ensures Valid()
      ensures slot < |old(appexCache)| && appexCache == old(appexCache)[slot := e]
    {
      appexCache := appexCache[slot := e];
    }

    method LookupReplace(slot: nat) returns (e: Entry)
      requires Valid() && slot < cachesize
      ensures slot < |replaceCache| && e == replaceCache[slot] && ReplaceEntry(nodes, pairs, e)
      ensures e.a >= 0 ==> e.res >= 0
    {
      e := replaceCache[slot];
    }

    method StoreReplace(slot: nat, e: Entry)
      requires Valid() && slot < cachesize && ReplaceEntry(nodes, pairs, e)
      modifies this`replaceCache
      ensures Valid()
      ensures slot < |old(replaceCache)| && replaceCache == old(replaceCache)[slot := e]
    {
      replaceCache := replaceCache[slot := e];
    }

    method LookupMisc(slot: nat) returns (e: Entry)
      requires Valid() && slot < cachesize
      ensures slot < |miscCache| && e == miscCache[slot] && MiscEntry(nodes, stale, e)
      ensures e.a >= 0 ==> e.res >= 0
    {
      e := miscCache[slot];
    }

    method StoreMisc(slot: nat, e: Entry)
      requires Valid() && slot < cachesize && MiscEntry(nodes, stale, e)
      modifies this`miscCache
      ensures Valid()
      ensures slot < |old(miscCache)| && miscCache == old(miscCache)[slot := e]
    {
      miscCache := miscCache[slot := e];
    }
  }
}
