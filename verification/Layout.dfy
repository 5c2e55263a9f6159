/** The thirteen fields of a packet and the variables that are set aside for each. */
module Layout {
  import opened Table
  import opened Powers
  import opened Substitution
  import opened BitVectors
  import opened BitSlices
  import opened Kernel
  import opened BvecOps
  import opened Domains
  import Prefixes

  /** Source zone, IPv4 and IPv6 address; destination zone, IPv4 and IPv6 address; protocol, TCP port,
      UDP port, ICMP type; application, user, URL. */
  const BITS: seq<nat> := [8, 32, 128, 8, 32, 128, 2, 16, 16, 16, 10, 11, 11]

  const FIELDS: nat := |BITS|

  /** The domains, in the order of their variables, and the largest value of each. */
  datatype DomainType =
    | SrcZone | SrcAddress4 | SrcAddress6 | DstZone | DstAddress4 | DstAddress6
    | Protocol | DstTcpPort | DstUdpPort | IcmpType | Application | User | Url

  const DOMAINS: seq<DomainType> :=
    [SrcZone, SrcAddress4, SrcAddress6, DstZone, DstAddress4, DstAddress6,
     Protocol, DstTcpPort, DstUdpPort, IcmpType, Application, User, Url]

  function Largest(domain: DomainType): nat {
    match domain
    case SrcZone | DstZone => 255
    case SrcAddress4 | DstAddress4 => 0xFFFF_FFFF
    case SrcAddress6 | DstAddress6 => 0xFFFF_FFFF_FFFF_FFFF_FFFF_FFFF_FFFF_FFFF
    case Protocol => 3
    case DstTcpPort | DstUdpPort | IcmpType => 0xFFFF
    case Application => 1023
    case User | Url => 2047
  }

  /** Some packet has value x in the block. */
  ghost predicate Takes(offset: nat, n: nat, x: nat) {
    exists packet: Env :: BlockValue(packet, offset, n) == x
  }

  /** Each field has exactly as many bits as the values of its domain need; the values that an assignment can give
      it are those of the domain, and the bounds of the addresses are those of their texts. */
  lemma FieldsFit(d: nat, x: nat)
    requires d < FIELDS
    ensures |DOMAINS| == FIELDS && Pow2(BITS[d]) == Largest(DOMAINS[d]) + 1
    ensures x <= Largest(DOMAINS[d]) <==> Takes(Offset(BITS, d), BITS[d], x)
    ensures DOMAINS[d] in {SrcAddress4, DstAddress4} ==> Largest(DOMAINS[d]) == Prefixes.Max(Prefixes.V4)
    ensures DOMAINS[d] in {SrcAddress6, DstAddress6} ==> Largest(DOMAINS[d]) == Prefixes.Max(Prefixes.V6)
  {
    hide Pow2, Offset, Takes;
    FieldSizes(d);
    BlockTakes(Offset(BITS, d), BITS[d], x);
  }

  /** A block of n variables takes exactly the values below 2^n. */
  lemma BlockTakes(offset: nat, n: nat, x: nat)
    ensures x < Pow2(n) <==> Takes(offset, n, x)
  {
    if x < Pow2(n) {
      SpelledValue(Spelled(offset, n, x), offset, n, x);
    }
    if packet: Env :| BlockValue(packet, offset, n) == x {
      BlockBound(packet, offset, n);
    }
  }

  lemma FieldSizes(d: nat)
    requires d < FIELDS
    ensures |DOMAINS| == FIELDS && Pow2(BITS[d]) == Largest(DOMAINS[d]) + 1
    ensures DOMAINS[d] in {SrcAddress4, DstAddress4} ==> Largest(DOMAINS[d]) == Prefixes.Max(Prefixes.V4)
    ensures DOMAINS[d] in {SrcAddress6, DstAddress6} ==> Largest(DOMAINS[d]) == Prefixes.Max(Prefixes.V6)
  {
    hide Pow2;
    FieldPowers();
  }

  lemma FieldPowers()
    ensures Pow2(2) == 4 && Pow2(8) == 256 && Pow2(10) == 1024 && Pow2(11) == 2048 && Pow2(16) == 0x1_0000
    ensures Pow2(32) == 0x1_0000_0000 && Pow2(128) == 0x1_0000_0000_0000_0000_0000_0000_0000_0000
  {
    hide Pow2;
    Pow2Zero();
    Pow2Next(0);
    Pow2Next(1);
    Pow2Add(2, 2);
    Pow2Add(4, 4);
    Pow2Add(8, 2);
    Pow2Next(10);
    Pow2Add(8, 8);
    Pow2Add(16, 16);
    Pow2Add(32, 32);
    Pow2Add(64, 64);
  }

  function Offset(bits: seq<nat>, dn: nat): (offset: nat)
    requires dn <= |bits|
  {
    if dn == 0 then 0 else Offset(bits, dn - 1) + bits[dn - 1]
  }

  lemma {:induction false} OffsetsGrow(bits: seq<nat>, a: nat, b: nat)
    requires a <= b <= |bits|
    ensures Offset(bits, a) <= Offset(bits, b)
  {
    if a < b { OffsetsGrow(bits, a, b - 1); }
  }

  lemma OffsetNext(bits: seq<nat>, dn: nat)
    requires dn < |bits|
    ensures Offset(bits, dn + 1) == Offset(bits, dn) + bits[dn]
  {
  }

  /** No field is empty or wider than an address. */
  lemma {:induction false} OffsetBounds(bits: seq<nat>, dn: nat)
    requires dn <= |bits| && forall i :: 0 <= i < |bits| ==> 1 <= bits[i] <= 128
    ensures dn <= Offset(bits, dn) <= 128 * dn
  {
    if dn > 0 { OffsetBounds(bits, dn - 1); }
  }

  /** No variable belongs to two fields. */
  lemma BlocksDisjoint(bits: seq<nat>, a: nat, b: nat, i: nat, j: nat)
    requires a < b < |bits| && i < bits[a] && j < bits[b]
    ensures Offset(bits, a) + i < Offset(bits, b) + j < Offset(bits, |bits|)
  {
    OffsetsGrow(bits, a + 1, b);
    OffsetsGrow(bits, b + 1, |bits|);
  }

  /** Domains::init_bdd: a kernel with enough variables, and a vector for each field. */
  method InitBdd(cacheSize: nat) returns (k: Kernel, vars: seq<Bvec>)
    requires cacheSize > 0
    ensures fresh(k) && k.Valid() && k.varnum == k.nodes[0].level == Offset(BITS, FIELDS)
    ensures |vars| == FIELDS && AreBlocks(k.nodes, BITS, vars)
  {
    var bits := BITS;
    var nvars: nat := 0;
    for dn := 0 to |bits|
      invariant nvars == Offset(bits, dn)
    {
      nvars := nvars + bits[dn];
    }
    k := new Kernel(cacheSize);
    hide k.Valid, AreBlocks;
    OffsetBounds(bits, |bits|);
    var err := k.SetVarNum(nvars);
    vars := Allocate(k, bits);
  }

  /** One field: consecutive variables, least significant bit first. */
  method Block(k: Kernel, nbits: nat, offset: nat) returns (v: Bvec)
    requires k.Valid() && offset + nbits <= k.varnum
    ensures |v| == nbits && IsBlock(k.nodes, offset, v)
  {
    hide k.Valid, WellFormed, IsVar;
    var err;
    v, err := Var(k, nbits, offset, 1);
    forall i | 0 <= i < nbits ensures 0 <= offset + i * 1 < k.varnum {
    }
    forall i | 0 <= i < nbits ensures IsVar(k.nodes, offset + i, v[i]) {
      assert IsVar(k.nodes, offset + i * 1, v[i]);
    }
  }

  /** The first fields have their blocks, one after the other. */
  ghost predicate AreBlocks(t: seq<Node>, bits: seq<nat>, vars: seq<Bvec>)
    requires WellFormed(t) && |vars| <= |bits|
  {
    forall dn :: 0 <= dn < |vars| ==> |vars[dn]| == bits[dn] && IsBlock(t, Offset(bits, dn), vars[dn])
  }

  lemma NextBlock(t: seq<Node>, bits: seq<nat>, vars: seq<Bvec>, v: Bvec)
    requires WellFormed(t) && |vars| < |bits| && AreBlocks(t, bits, vars)
    requires |v| == bits[|vars|] && IsBlock(t, Offset(bits, |vars|), v)
    ensures AreBlocks(t, bits, vars + [v])
  {
  }

  method Allocate(k: Kernel, bits: seq<nat>) returns (vars: seq<Bvec>)
    requires k.Valid() && k.varnum == Offset(bits, |bits|)
    ensures |vars| == |bits| && AreBlocks(k.nodes, bits, vars)
  {
    hide k.Valid, WellFormed, IsBlock, AreBlocks, Offset;
    vars := [];
    var offset: nat := 0;
    NoBlocks(k.nodes, bits);
    for dn := 0 to |bits|
      invariant offset == Offset(bits, dn) && |vars| == dn
      invariant AreBlocks(k.nodes, bits, vars)
    {
      OffsetsGrow(bits, dn + 1, |bits|);
      OffsetNext(bits, dn);
      var v := Block(k, bits[dn], offset);
      NextBlock(k.nodes, bits, vars, v);
      vars := vars + [v];
      offset := offset + bits[dn];
    }
  }

  lemma NoBlocks(t: seq<Node>, bits: seq<nat>)
    requires WellFormed(t)
    ensures AreBlocks(t, bits, []) && Offset(bits, 0) == 0
  {
  }

  /** The variables at offset and above that spell the number x. */
  function Spelled(offset: nat, n: nat, x: nat): set<nat> {
    if n == 0 then {}
    else if x >= Pow2(n - 1) then Spelled(offset, n - 1, x - Pow2(n - 1)) + {offset + n - 1}
    else Spelled(offset, n - 1, x)
  }

  lemma {:induction false} SpelledInside(offset: nat, n: nat, x: nat)
    ensures forall v :: v in Spelled(offset, n, x) ==> offset <= v < offset + n
  {
    if n > 0 {
      SpelledInside(offset, n - 1, if x >= Pow2(n - 1) then x - Pow2(n - 1) else x);
    }
  }

  lemma {:induction false} SpelledValue(env: Env, offset: nat, n: nat, x: nat)
    requires x < Pow2(n)
    requires forall v :: offset <= v < offset + n ==> (v in env <==> v in Spelled(offset, n, x))
    ensures BlockValue(env, offset, n) == x
  {
    if n > 0 {
      var y := if x >= Pow2(n - 1) then x - Pow2(n - 1) else x;
      SpelledInside(offset, n - 1, y);
      SpelledValue(env, offset, n - 1, y);
    }
  }

  /** The packet with the given value in each of the first dn fields. */
  function Packet(bits: seq<nat>, values: seq<nat>, dn: nat): Env
    requires dn <= |bits| == |values|
  {
    if dn == 0 then {} else Packet(bits, values, dn - 1) + Spelled(Offset(bits, dn - 1), bits[dn - 1], values[dn - 1])
  }

  lemma {:induction false} PacketInside(bits: seq<nat>, values: seq<nat>, dn: nat)
    requires dn <= |bits| == |values|
    ensures forall v :: v in Packet(bits, values, dn) ==> v < Offset(bits, dn)
  {
    if dn > 0 {
      PacketInside(bits, values, dn - 1);
      SpelledInside(Offset(bits, dn - 1), bits[dn - 1], values[dn - 1]);
    }
  }

  lemma {:induction false} PacketValues(bits: seq<nat>, values: seq<nat>, dn: nat, d: nat)
    requires d < dn <= |bits| == |values|
    requires forall i :: 0 <= i < |bits| ==> values[i] < Pow2(bits[i])
    ensures BlockValue(Packet(bits, values, dn), Offset(bits, d), bits[d]) == values[d]
  {
    var packet := Packet(bits, values, dn);
    if d == dn - 1 {
      PacketInside(bits, values, d);
      assert packet == Packet(bits, values, d) + Spelled(Offset(bits, d), bits[d], values[d]);
      assert forall v :: Offset(bits, d) <= v < Offset(bits, d) + bits[d] ==> v !in Packet(bits, values, d);
      SpelledValue(packet, Offset(bits, d), bits[d], values[d]);
    } else {
      PacketValues(bits, values, dn - 1, d);
      OffsetsGrow(bits, d + 1, dn - 1);
      SpelledInside(Offset(bits, dn - 1), bits[dn - 1], values[dn - 1]);
      SameBlock(Packet(bits, values, dn - 1), packet, Offset(bits, d), bits[d]);
    }
  }

  lemma {:induction false} SameBlock(e1: Env, e2: Env, offset: nat, n: nat)
    requires forall v :: offset <= v < offset + n ==> (v in e1 <==> v in e2)
    ensures BlockValue(e1, offset, n) == BlockValue(e2, offset, n)
  {
    if n > 0 { SameBlock(e1, e2, offset, n - 1); }
  }

  /** The fields are independent: whatever value each of them is to have, one packet has them all. */
  lemma Independent(values: seq<nat>) returns (packet: Env)
    requires |values| == FIELDS
    requires forall i :: 0 <= i < FIELDS ==> values[i] < Pow2(BITS[i])
    ensures forall d :: 0 <= d < FIELDS ==> BlockValue(packet, Offset(BITS, d), BITS[d]) == values[d]
  {
    packet := Packet(BITS, values, FIELDS);
    forall d | 0 <= d < FIELDS ensures BlockValue(packet, Offset(BITS, d), BITS[d]) == values[d] {
      PacketValues(BITS, values, FIELDS, d);
    }
  }

  /** So ranges on all the fields together are met by some packet. */
  lemma RangesMeet(t: seq<Node>, ranges: seq<Range>, nodes: seq<nat>) returns (packet: Env)
    requires WellFormed(t) && |ranges| == |nodes| == FIELDS
    requires forall d :: 0 <= d < FIELDS ==>
      ranges[d].Valid() && ranges[d].nbits == BITS[d] && Encodes(t, ranges[d], Offset(BITS, d), nodes[d])
    ensures forall d :: 0 <= d < FIELDS ==> nodes[d] < |t| && Eval(t, nodes[d], packet)
  {
    packet := Independent(seq(FIELDS, d requires 0 <= d < FIELDS => ranges[d].lbound));
  }
}
