/** Sets of packets as nodes.  A packet is an assignment of the variables; a node stands for the packets
    that it is true of.  Since equal functions are equal nodes, comparing two ids, or one id with a
    constant, decides the relation between the sets. */
module Mnodes {
  import opened Table
  import opened Meaning
  import opened Quantification
  import opened Kernel
  import opened BvecOps

  type Packets = iset<Env>

  /** Growing the table changes no set. */
  lemma ExtendDen(t: seq<Node>, t': seq<Node>)
    requires WellFormed(t) && WellFormed(t') && t <= t'
    ensures forall n :: 0 <= n < |t| ==> Den(t', n) == Den(t, n)
  {
    forall n | 0 <= n < |t| ensures Den(t', n) == Den(t, n) {
      forall env ensures env in Den(t', n) <==> env in Den(t, n) {
        ExtendEval(t, t', n, env);
      }
    }
  }

  /** Equal ids, equal sets. */
  lemma SameSet(t: seq<Node>, a: nat, b: nat)
    requires WellFormed(t) && a < |t| && b < |t|
    ensures a == b <==> Den(t, a) == Den(t, b)
  {
    Canonical(t, a, b);
    if Den(t, a) == Den(t, b) {
      forall env ensures Eval(t, a, env) == Eval(t, b, env) {
        assert env in Den(t, a) <==> env in Den(t, b);
      }
    }
  }

  ghost function AllPackets(): Packets {
    iset env: Env | |env| >= 0
  }

  lemma ConstantSets(t: seq<Node>)
    requires WellFormed(t)
    ensures |t| >= 2 && Den(t, 0) == iset{} && Den(t, 1) == AllPackets()
  {
    Constants(t);
  }

  /** The five relations, in the order in which compare looks for them. */
  datatype MnodeRelationship = Equal | Subset | Superset | Disjoint | Overlap

  ghost function Relation(a: Packets, b: Packets): MnodeRelationship {
    if a == b then Equal
    else if a <= b then Subset
    else if b <= a then Superset
    else if a !! b then Disjoint
    else Overlap
  }

  /** What each relation says about packets. */
  ghost predicate Related(relation: MnodeRelationship, a: Packets, b: Packets) {
    match relation
    case Equal => forall p :: p in a <==> p in b
    case Subset => (forall p :: p in a ==> p in b) && exists p :: p in b && p !in a
    case Superset => (forall p :: p in b ==> p in a) && exists p :: p in a && p !in b
    case Disjoint =>
      && (exists p :: p in a && p !in b) && (exists p :: p in b && p !in a)
      && forall p :: !(p in a && p in b)
    case Overlap =>
      && (exists p :: p in a && p !in b) && (exists p :: p in b && p !in a)
      && exists p :: p in a && p in b
  }

  /** Exactly one of the five holds, and it is the one that is found. */
  lemma RelationMeans(a: Packets, b: Packets, relation: MnodeRelationship)
    ensures Relation(a, b) == relation <==> Related(relation, a, b)
  {
    var found := Relation(a, b);
    NotInside(a, b);
    NotInside(b, a);
    NothingShared(a, b);
    assert a == b <==> a <= b && b <= a;
    if !(a !! b) {
      var p :| p in a * b;
    }
  }

  lemma NotInside(a: Packets, b: Packets)
    ensures a <= b <==> !exists p :: p in a && p !in b
  {
    if !exists p :: p in a && p !in b {
      forall p | p in a ensures p in b {
      }
    }
  }

  /** The operators that the relations use, on sets of packets. */
  method And(k: Kernel, a: nat, b: nat) returns (res: nat)
    requires k.Valid() && a < |k.nodes| && b < |k.nodes|
    modifies k
    ensures k.Valid() && k.Kept()
    ensures forall n :: 0 <= n < |old(k.nodes)| ==> Den(k.nodes, n) == old(Den(k.nodes, n))
    ensures res < |k.nodes| && Den(k.nodes, res) == old(Den(k.nodes, a) * Den(k.nodes, b))
  {
    hide k.Valid, WellFormed, Eval;
    ghost var t := k.nodes;
    res := Gate(k, a, b, AND);
    ExtendDen(t, k.nodes);
    ExtendAll(t, k.nodes);
  }

  method Or(k: Kernel, a: nat, b: nat) returns (res: nat)
    requires k.Valid() && a < |k.nodes| && b < |k.nodes|
    modifies k
    ensures k.Valid() && k.Kept()
    ensures forall n :: 0 <= n < |old(k.nodes)| ==> Den(k.nodes, n) == old(Den(k.nodes, n))
    ensures res < |k.nodes| && Den(k.nodes, res) == old(Den(k.nodes, a) + Den(k.nodes, b))
  {
    hide k.Valid, WellFormed, Eval;
    ghost var t := k.nodes;
    res := Gate(k, a, b, OR);
    ExtendDen(t, k.nodes);
    ExtendAll(t, k.nodes);
  }

  method Minus(k: Kernel, a: nat, b: nat) returns (res: nat)
    requires k.Valid() && a < |k.nodes| && b < |k.nodes|
    modifies k
    ensures k.Valid() && k.Kept()
    ensures forall n :: 0 <= n < |old(k.nodes)| ==> Den(k.nodes, n) == old(Den(k.nodes, n))
    ensures res < |k.nodes| && Den(k.nodes, res) == old(Den(k.nodes, a) - Den(k.nodes, b))
  {
    hide k.Valid, WellFormed, Eval;
    ghost var t := k.nodes;
    res := Gate(k, a, b, DIFF);
    ExtendDen(t, k.nodes);
    ExtendAll(t, k.nodes);
  }

  method Not(k: Kernel, a: nat) returns (res: nat)
    requires k.Valid() && a < |k.nodes|
    modifies k
    ensures k.Valid() && k.Kept()
    ensures forall n :: 0 <= n < |old(k.nodes)| ==> Den(k.nodes, n) == old(Den(k.nodes, n))
    ensures res < |k.nodes| && Den(k.nodes, res) == old(AllPackets() - Den(k.nodes, a))
  {
    hide k.Valid, WellFormed, Eval;
    ghost var t := k.nodes;
    var err;
    res, err := ApplyOps.Not(k, a);
    ExtendDen(t, k.nodes);
    ExtendAll(t, k.nodes);
  }

  /** Mnode::is_subset: the implication is the constant true. */
  method IsSubset(k: Kernel, a: nat, b: nat) returns (yes: bool)
    requires k.Valid() && a < |k.nodes| && b < |k.nodes|
    modifies k
    ensures k.Valid() && k.Kept()
    ensures forall n :: 0 <= n < |old(k.nodes)| ==> Den(k.nodes, n) == old(Den(k.nodes, n))
    ensures yes <==> old(Den(k.nodes, a) <= Den(k.nodes, b))
  {
    hide k.Valid, WellFormed, Eval, IsApply;
    if a == b {
      return true;
    }
    ghost var t := k.nodes;
    var imp := Gate(k, a, b, IMP);
    ExtendDen(t, k.nodes);
    ImpliesIsSubset(k.nodes, a, b, imp);
    return imp == 1;
  }

  lemma ImpliesIsSubset(t: seq<Node>, a: nat, b: nat, imp: nat)
    requires WellFormed(t) && IsApply(t, IMP, a, b, imp)
    ensures a < |t| && b < |t| && (imp == 1 <==> Den(t, a) <= Den(t, b))
  {
    Constants(t);
    Canonical(t, imp, 1);
    if Den(t, a) <= Den(t, b) {
      forall env ensures Eval(t, imp, env) {
        assert env in Den(t, a) ==> env in Den(t, b);
      }
      assert Same(t, imp, 1);
    }
  }

  method IsSuperset(k: Kernel, a: nat, b: nat) returns (yes: bool)
    requires k.Valid() && a < |k.nodes| && b < |k.nodes|
    modifies k
    ensures k.Valid() && k.Kept()
    ensures forall n :: 0 <= n < |old(k.nodes)| ==> Den(k.nodes, n) == old(Den(k.nodes, n))
    ensures yes <==> old(Den(k.nodes, b) <= Den(k.nodes, a))
  {
    yes := IsSubset(k, b, a);
  }

  lemma NothingShared(a: Packets, b: Packets)
    ensures a !! b <==> a * b == iset{}
  {
    if a * b == iset{} {
      forall env ensures !(env in a && env in b) {
        assert env !in a * b;
      }
    }
  }

  /** Mnode::is_disjoint: the conjunction is the constant false. */
  method IsDisjoint(k: Kernel, a: nat, b: nat) returns (yes: bool)
    requires k.Valid() && a < |k.nodes| && b < |k.nodes|
    modifies k
    ensures k.Valid() && k.Kept()
    ensures forall n :: 0 <= n < |old(k.nodes)| ==> Den(k.nodes, n) == old(Den(k.nodes, n))
    ensures yes <==> old(Den(k.nodes, a) !! Den(k.nodes, b))
  {
    hide k.Valid, WellFormed, Eval;
    NothingShared(Den(k.nodes, a), Den(k.nodes, b));
    var both := And(k, a, b);
    ConstantSets(k.nodes);
    SameSet(k.nodes, both, 0);
    yes := both == 0;
  }

  method Overlaps(k: Kernel, a: nat, b: nat) returns (yes: bool)
    requires k.Valid() && a < |k.nodes| && b < |k.nodes|
    modifies k
    ensures k.Valid() && k.Kept()
    ensures forall n :: 0 <= n < |old(k.nodes)| ==> Den(k.nodes, n) == old(Den(k.nodes, n))
    ensures yes <==> old(!(Den(k.nodes, a) !! Den(k.nodes, b)))
  {
    yes := IsDisjoint(k, a, b);
    yes := !yes;
  }

  method IsAny(k: Kernel, a: nat) returns (yes: bool)
    requires k.Valid() && a < |k.nodes|
    ensures yes <==> Den(k.nodes, a) == AllPackets()
  {
    ConstantSets(k.nodes);
    SameSet(k.nodes, a, 1);
    yes := a == 1;
  }

  method IsNone(k: Kernel, a: nat) returns (yes: bool)
    requires k.Valid() && a < |k.nodes|
    ensures yes <==> Den(k.nodes, a) == iset{}
  {
    ConstantSets(k.nodes);
    SameSet(k.nodes, a, 0);
    yes := a == 0;
  }

  method EqualNodes(k: Kernel, a: nat, b: nat) returns (yes: bool)
    requires k.Valid() && a < |k.nodes| && b < |k.nodes|
    ensures yes <==> Den(k.nodes, a) == Den(k.nodes, b)
  {
    SameSet(k.nodes, a, b);
    yes := a == b;
  }

  /** Mnode::compare. */
  method Compare(k: Kernel, a: nat, b: nat) returns (relation: MnodeRelationship)
    requires k.Valid() && a < |k.nodes| && b < |k.nodes|
    modifies k
    ensures k.Valid() && k.Kept()
    ensures forall n :: 0 <= n < |old(k.nodes)| ==> Den(k.nodes, n) == old(Den(k.nodes, n))
    ensures relation == old(Relation(Den(k.nodes, a), Den(k.nodes, b)))
    ensures forall r :: relation == r <==> old(Related(r, Den(k.nodes, a), Den(k.nodes, b)))
  {
    hide k.Valid, WellFormed, Eval, IsApply, Related;
    forall r ensures Relation(Den(k.nodes, a), Den(k.nodes, b)) == r <==> Related(r, Den(k.nodes, a), Den(k.nodes, b)) {
      RelationMeans(Den(k.nodes, a), Den(k.nodes, b), r);
    }
    SameSet(k.nodes, a, b);
    if a == b {
      return Equal;
    }
    ghost var t := k.nodes;
    var imp := Gate(k, a, b, IMP);
    ghost var t1 := k.nodes;
    ExtendDen(t, t1);
    ImpliesIsSubset(t1, a, b, imp);
    if imp == 1 {
      return Subset;
    }
    imp := Gate(k, b, a, IMP);
    ExtendDen(t1, k.nodes);
    ImpliesIsSubset(k.nodes, b, a, imp);
    if imp == 1 {
      return Superset;
    }
    var disjoint := IsDisjoint(k, a, b);
    return if disjoint then Disjoint else Overlap;
  }
}
