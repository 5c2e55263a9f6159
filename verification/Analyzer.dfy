/** The analysis of a rule list, on nodes: the state of accepted, denied and remaining packets, and the
    verdict on each rule. */
module Analyzer {
  import opened Table
  import opened Quantification
  import opened Kernel
  import opened Mnodes
  import opened Policy
  import opened Options

  /** packets is the node that make_bdd returns for the predicate of the rule. */
  datatype Rule = Rule(id: int, enabled: bool, action: RuleAction, packets: nat)

  ghost predicate ValidRules(t: seq<Node>, rules: seq<Rule>) {
    forall i :: 0 <= i < |rules| ==> rules[i].packets < |t|
  }

  /** The rules as sets of packets. */
  ghost function Rows(t: seq<Node>, rules: seq<Rule>): (rows: seq<Row>)
    requires WellFormed(t) && ValidRules(t, rules)
    ensures |rows| == |rules|
    ensures forall i :: 0 <= i < |rows| ==> rows[i] == Row(rules[i].id, rules[i].action, Den(t, rules[i].packets))
  {
    seq(|rules|, i requires 0 <= i < |rules| => Row(rules[i].id, rules[i].action, Den(t, rules[i].packets)))
  }

  lemma ExtendRows(t: seq<Node>, t': seq<Node>, rules: seq<Rule>)
    requires WellFormed(t) && WellFormed(t') && t <= t' && ValidRules(t, rules)
    ensures ValidRules(t', rules) && Rows(t', rules) == Rows(t, rules)
  {
    ExtendDen(t, t');
  }

  class State {
    var input: nat
    var accepted: nat
    var denied: nat
    var remaining: nat

    /** The variables hold what the rules so far decide, and what they leave open. */
    ghost predicate Reflects(t: seq<Node>, rows: seq<Row>)
      requires WellFormed(t)
      reads this
    {
      && input < |t| && accepted < |t| && denied < |t| && remaining < |t|
      && Den(t, input) == AllPackets()
      && Den(t, accepted) == Decided(rows, Allow)
      && Den(t, denied) == Decided(rows, Deny)
      && Den(t, remaining) == Undecided(rows)
    }

    /** The predicate that accepts any packet is the constant true. */
    constructor (k: Kernel)
      requires k.Valid()
      ensures Reflects(k.nodes, [])
    {
      input, accepted, denied, remaining := 1, 0, 0, 1;
      new;
      ConstantSets(k.nodes);
      NothingDecided();
    }

    /** State::update. */
    method Update(k: Kernel, action: RuleAction, node: nat, ghost rows: seq<Row>, ghost id: int)
      requires k.Valid() && node < |k.nodes| && Reflects(k.nodes, rows)
      modifies k, this
      ensures k.Valid() && k.Kept()
      ensures Reflects(k.nodes, rows + [Row(id, action, old(Den(k.nodes, node)))])
    {
      hide k.Valid, WellFormed;
      ghost var packets := Den(k.nodes, node);
      var both := And(k, remaining, node);
      if action == Allow {
        accepted := Or(k, accepted, both);
      } else {
        denied := Or(k, denied, both);
      }
      var processed := Or(k, accepted, denied);
      var rest := Mnodes.Not(k, processed);
      remaining := And(k, input, rest);
      OneMore(rows, Row(id, action, packets));
    }

    /** State::processed. */
    function Processed(action: RuleAction): nat
      reads this
    {
      if action == Allow then accepted else denied
    }
  }

  lemma NothingDecided()
    ensures Decided([], Allow) == iset{} && Decided([], Deny) == iset{} && Undecided([]) == AllPackets()
  {
    assert forall p :: Decision([], p) == None;
  }

  /** How the three sets move when a rule is added. */
  lemma OneMore(rows: seq<Row>, row: Row)
    ensures var taken := Undecided(rows) * row.packets;
      && Decided(rows + [row], row.action) == Decided(rows, row.action) + taken
      && Decided(rows + [row], Opposite(row.action)) == Decided(rows, Opposite(row.action))
    ensures Undecided(rows + [row]) ==
      AllPackets() * (AllPackets() - (Decided(rows + [row], Allow) + Decided(rows + [row], Deny)))
  {
    forall p: Env
      ensures Decision(rows + [row], p) ==
        if Decision(rows, p) != None then Decision(rows, p) else if p in row.packets then Some(row.action) else None
    {
      DecisionPush(rows, row, p);
    }
    forall p: Env ensures p in Undecided(rows + [row]) <==>
      p !in Decided(rows + [row], Allow) && p !in Decided(rows + [row], Deny)
    {
      EitherAction(Decision(rows + [row], p), Allow);
    }
  }

  /** The three sets partition the packets. */
  lemma Partition(rows: seq<Row>, p: Env)
    ensures p in Decided(rows, Allow) || p in Decided(rows, Deny) || p in Undecided(rows)
    ensures !(p in Decided(rows, Allow) && p in Decided(rows, Deny))
    ensures p in Undecided(rows) ==> p !in Decided(rows, Allow) && p !in Decided(rows, Deny)
  {
    EitherAction(Decision(rows, p), Allow);
  }

  type Bddcache = map<int, nat>

  /** The cache has, for each rule up to n, the set on file for its id. */
  ghost predicate CacheOk(t: seq<Node>, rows: seq<Row>, n: nat, cache: Bddcache)
    requires WellFormed(t) && n <= |rows|
  {
    forall i :: 0 <= i < n ==> rows[i].id in cache && OnFile(t, rows, n, i, cache[rows[i].id])
  }

  ghost predicate OnFile(t: seq<Node>, rows: seq<Row>, n: nat, i: nat, node: nat)
    requires WellFormed(t) && i < n <= |rows|
  {
    node < |t| && Den(t, node) == Cached(rows[..n], rows[i].id)
  }

  lemma ExtendCache(t: seq<Node>, t': seq<Node>, rows: seq<Row>, n: nat, cache: Bddcache)
    requires WellFormed(t) && WellFormed(t') && t <= t' && n <= |rows| && CacheOk(t, rows, n, cache)
    ensures CacheOk(t', rows, n, cache)
  {
    ExtendDen(t, t');
    forall i | 0 <= i < n ensures rows[i].id in cache && OnFile(t', rows, n, i, cache[rows[i].id]) {
      assert OnFile(t, rows, n, i, cache[rows[i].id]);
    }
  }

  /** Entering one more rule replaces what was on file for its id. */
  lemma EnterRule(t: seq<Node>, rows: seq<Row>, n: nat, cache: Bddcache, node: nat)
    requires WellFormed(t) && n < |rows| && CacheOk(t, rows, n, cache)
    requires node < |t| && Den(t, node) == rows[n].packets
    ensures CacheOk(t, rows, n + 1, cache[rows[n].id := node])
    ensures Cached(rows[..n + 1], rows[n].id) == rows[n].packets
  {
    assert rows[..n + 1][..n] == rows[..n];
    forall i | 0 <= i < n + 1
      ensures rows[i].id in cache[rows[n].id := node]
      ensures OnFile(t, rows, n + 1, i, cache[rows[n].id := node][rows[i].id])
    {
      if i < n { assert OnFile(t, rows, n, i, cache[rows[i].id]); }
    }
  }

  /** Analyzer::find_overlaping: the rules before n with the given action that overlap rule n. */
  method FindOverlapping(k: Kernel, acl: seq<Rule>, n: nat, action: RuleAction, cache: Bddcache, ghost rows: seq<Row>)
    returns (found: seq<nat>)
    requires k.Valid() && n < |acl| && ValidRules(k.nodes, acl) && rows == Rows(k.nodes, acl)
    requires CacheOk(k.nodes, rows, n + 1, cache)
    modifies k
    ensures k.Valid() && k.Kept()
    ensures found == Find(rows, n, action, Overlapping, n)
  {
    hide k.Valid, WellFormed, CacheOk, Rows;
    found := [];
    CacheHit(k.nodes, rows, n, n, cache);
    var mine := cache[acl[n].id];
    for i := 0 to n
      invariant k.Valid() && k.Kept()
      invariant CacheOk(k.nodes, rows, n + 1, cache)
      invariant found == Find(rows, n, action, Overlapping, i)
    {
      CacheHit(k.nodes, rows, n, n, cache);
      CacheHit(k.nodes, rows, n, i, cache);
      if acl[i].action == action {
        ghost var t := k.nodes;
        var yes := Overlaps(k, mine, cache[acl[i].id]);
        ExtendCache(t, k.nodes, rows, n + 1, cache);
        if yes {
          found := found + [i];
        }
      }
    }
  }

  /** Analyzer::find_other_is_subset: those that rule n contains. */
  method FindOtherIsSubset(k: Kernel, acl: seq<Rule>, n: nat, action: RuleAction, cache: Bddcache, ghost rows: seq<Row>)
    returns (found: seq<nat>)
    requires k.Valid() && n < |acl| && ValidRules(k.nodes, acl) && rows == Rows(k.nodes, acl)
    requires CacheOk(k.nodes, rows, n + 1, cache)
    modifies k
    ensures k.Valid() && k.Kept()
    ensures found == Find(rows, n, action, Inside, n)
  {
    hide k.Valid, WellFormed, CacheOk, Rows;
    found := [];
    CacheHit(k.nodes, rows, n, n, cache);
    var mine := cache[acl[n].id];
    for i := 0 to n
      invariant k.Valid() && k.Kept()
      invariant CacheOk(k.nodes, rows, n + 1, cache)
      invariant found == Find(rows, n, action, Inside, i)
    {
      CacheHit(k.nodes, rows, n, n, cache);
      CacheHit(k.nodes, rows, n, i, cache);
      if acl[i].action == action {
        ghost var t := k.nodes;
        var yes := IsSubset(k, cache[acl[i].id], mine);
        ExtendCache(t, k.nodes, rows, n + 1, cache);
        if yes {
          found := found + [i];
        }
      }
    }
  }

  lemma CacheHit(t: seq<Node>, rows: seq<Row>, n: nat, i: nat, cache: Bddcache)
    requires WellFormed(t) && i <= n < |rows| && CacheOk(t, rows, n + 1, cache)
    ensures rows[i].id in cache && cache[rows[i].id] < |t|
    ensures Den(t, cache[rows[i].id]) == Cached(rows[..n + 1], rows[i].id)
  {
    assert OnFile(t, rows, n + 1, i, cache[rows[i].id]);
  }

  /** Rule n is about to be judged: the state reflects the rules before it, and it is on file itself. */
  ghost predicate Ready(t: seq<Node>, acl: seq<Rule>, rows: seq<Row>, n: nat, state: State, cache: Bddcache)
    requires WellFormed(t)
    reads state
  {
    && n < |acl| && ValidRules(t, acl) && rows == Rows(t, acl)
    && CacheOk(t, rows, n + 1, cache)
    && state.Reflects(t, rows[..n])
    && Cached(rows[..n + 1], rows[n].id) == rows[n].packets
  }

  lemma ExtendReady(t: seq<Node>, t': seq<Node>, acl: seq<Rule>, rows: seq<Row>, n: nat, state: State, cache: Bddcache)
    requires WellFormed(t) && WellFormed(t') && t <= t' && Ready(t, acl, rows, n, state, cache)
    ensures Ready(t', acl, rows, n, state, cache)
  {
    ExtendDen(t, t');
    ExtendRows(t, t', acl);
    ExtendCache(t, t', rows, n + 1, cache);
  }

  /** The nodes that judging a rule looks at. */
  lemma ReadySets(t: seq<Node>, acl: seq<Rule>, rows: seq<Row>, n: nat, state: State, cache: Bddcache)
    requires WellFormed(t) && Ready(t, acl, rows, n, state, cache)
    ensures n < |acl| && ValidRules(t, acl) && rows == Rows(t, acl) && |rows| == |acl|
    ensures acl[n].id == rows[n].id && acl[n].action == rows[n].action
    ensures CacheOk(t, rows, n + 1, cache)
    ensures acl[n].id in cache && cache[acl[n].id] < |t| && Den(t, cache[acl[n].id]) == rows[n].packets
    ensures state.remaining < |t| && Den(t, state.remaining) == Undecided(rows[..n])
    ensures forall action :: state.Processed(action) < |t|
    ensures forall action :: Den(t, state.Processed(action)) == Decided(rows[..n], action)
  {
    CacheHit(t, rows, n, n, cache);
  }

  /** Analyzer::check_rule. */
  method CheckRule(k: Kernel, acl: seq<Rule>, n: nat, state: State, cache: Bddcache, ghost rows: seq<Row>)
    returns (o: Option<Details>)
    requires k.Valid() && Ready(k.nodes, acl, rows, n, state, cache)
    modifies k
    ensures k.Valid() && k.Kept()
    ensures n < |rows| && o == Verdict(rows, n)
  {
    hide k.Valid, WellFormed, Ready, Decided, Undecided, FullyMaskedVerdict, PartlyMaskedVerdict;
    ghost var t := k.nodes;
    ReadySets(t, acl, rows, n, state, cache);
    var mine := cache[acl[n].id];
    var masked := IsSubset(k, mine, state.remaining);
    if masked {
      return None;
    }
    ExtendReady(t, k.nodes, acl, rows, n, state, cache);
    ReadySets(k.nodes, acl, rows, n, state, cache);
    ghost var t1 := k.nodes;
    masked := IsNone(k, state.remaining);
    if !masked {
      masked := IsDisjoint(k, mine, state.remaining);
      ExtendReady(t1, k.nodes, acl, rows, n, state, cache);
    }
    if masked {
      o := AnalyzeFullyMaskedRule(k, acl, n, state, cache, rows);
    } else {
      o := AnalyzePartiallyMaskedRule(k, acl, n, state, cache, rows);
    }
  }

  method AnalyzeFullyMaskedRule(k: Kernel, acl: seq<Rule>, n: nat, state: State, cache: Bddcache, ghost rows: seq<Row>)
    returns (o: Option<Details>)
    requires k.Valid() && Ready(k.nodes, acl, rows, n, state, cache)
    modifies k
    ensures k.Valid() && k.Kept()
    ensures n < |rows| && o == FullyMaskedVerdict(rows, n)
  {
    hide k.Valid, WellFormed, Ready, Decided, Undecided, Find;
    ghost var t := k.nodes;
    ReadySets(t, acl, rows, n, state, cache);
    var mine, action := cache[acl[n].id], acl[n].action;
    var shadowed := IsSubset(k, mine, state.Processed(Opposite(action)));
    ghost var t1 := k.nodes;
    ExtendReady(t, t1, acl, rows, n, state, cache);
    ReadySets(t1, acl, rows, n, state, cache);
    if shadowed {
      var named := FindOverlapping(k, acl, n, Opposite(action), cache, rows);
      return Some(Shadowed(named));
    }
    var apart := IsDisjoint(k, mine, state.Processed(Opposite(action)));
    ghost var t2 := k.nodes;
    ExtendReady(t1, t2, acl, rows, n, state, cache);
    ReadySets(t2, acl, rows, n, state, cache);
    if apart {
      var named := FindOverlapping(k, acl, n, action, cache, rows);
      return Some(FullRedundant(named));
    }
    var correlated := FindOverlapping(k, acl, n, Opposite(action), cache, rows);
    ExtendReady(t2, k.nodes, acl, rows, n, state, cache);
    ReadySets(k.nodes, acl, rows, n, state, cache);
    var redundant := FindOverlapping(k, acl, n, action, cache, rows);
    o := Some(RedundantOrCorrelated(redundant, correlated));
  }

  method AnalyzePartiallyMaskedRule(k: Kernel, acl: seq<Rule>, n: nat, state: State, cache: Bddcache, ghost rows: seq<Row>)
    returns (o: Option<Details>)
    requires k.Valid() && Ready(k.nodes, acl, rows, n, state, cache)
    modifies k
    ensures k.Valid() && k.Kept()
    ensures n < |rows| && o == PartlyMaskedVerdict(rows, n)
  {
    hide k.Valid, WellFormed, Ready, Decided, Undecided, Find;
    ghost var t := k.nodes;
    ReadySets(t, acl, rows, n, state, cache);
    var mine, action := cache[acl[n].id], acl[n].action;
    var matching := FindOtherIsSubset(k, acl, n, Opposite(action), cache, rows);
    ghost var t1 := k.nodes;
    ExtendReady(t, t1, acl, rows, n, state, cache);
    ReadySets(t1, acl, rows, n, state, cache);
    if |matching| > 0 {
      return Some(Generalization(matching));
    }
    matching := FindMasking(k, acl, n, action, Inside, state, cache, rows);
    if |matching| > 0 {
      return Some(PartialRedundant(matching));
    }
    ExtendReady(t1, k.nodes, acl, rows, n, state, cache);
    matching := FindMasking(k, acl, n, Opposite(action), Overlapping, state, cache, rows);
    o := if |matching| > 0 then Some(Correlated(matching)) else None;
  }

  /** The search is made only when some packets of the rule got the action already. */
  method FindMasking(k: Kernel, acl: seq<Rule>, n: nat, action: RuleAction, search: Search, state: State, cache: Bddcache,
                     ghost rows: seq<Row>) returns (found: seq<nat>)
    requires k.Valid() && Ready(k.nodes, acl, rows, n, state, cache)
    modifies k
    ensures k.Valid() && k.Kept()
    ensures n < |rows|
    ensures found == if rows[n].packets !! Decided(rows[..n], action) then [] else Find(rows, n, action, search, n)
  {
    hide k.Valid, WellFormed, Ready, Decided, Undecided, Find;
    ghost var t := k.nodes;
    ReadySets(t, acl, rows, n, state, cache);
    var overlap := Overlaps(k, cache[acl[n].id], state.Processed(action));
    ExtendReady(t, k.nodes, acl, rows, n, state, cache);
    ReadySets(k.nodes, acl, rows, n, state, cache);
    found := [];
    if overlap {
      if search == Inside {
        found := FindOtherIsSubset(k, acl, n, action, cache, rows);
      } else {
        found := FindOverlapping(k, acl, n, action, cache, rows);
      }
    }
  }

  datatype RuleAnomaly = RuleAnomaly(rule: nat, details: Details)

  /** The last rule is not judged when it denies all packets. */
  ghost predicate Skipped(rows: seq<Row>, n: nat)
    requires n < |rows|
  {
    n == |rows| - 1 && rows[n].action == Deny && rows[n].packets == AllPackets()
  }

  /** The reports on the first n rules. */
  ghost function Reports(rows: seq<Row>, n: nat): seq<RuleAnomaly>
    requires n <= |rows|
  {
    if n == 0 then []
    else if Skipped(rows, n - 1) || Verdict(rows, n - 1) == None then Reports(rows, n - 1)
    else Reports(rows, n - 1) + [RuleAnomaly(n - 1, Verdict(rows, n - 1).value)]
  }

  /** Rule n has a report, of a kind that is asked for. */
  ghost predicate HasReport(anomalies: seq<RuleAnomaly>, n: nat, kind: Details -> bool) {
    exists a :: a in anomalies && a.rule == n && kind(a.details)
  }

  /** The reports are those that the verdicts call for: of every rule that is not the last, or allows, or does not
      match some packet, and of no rule twice.  A last rule with a verdict that goes unreported denies what is
      left to it. */
  ghost predicate Justified(rows: seq<Row>, anomalies: seq<RuleAnomaly>) {
    && (forall i, j :: 0 <= i < j < |anomalies| ==> anomalies[i].rule < anomalies[j].rule)
    && (forall a :: a in anomalies ==> a.rule < |rows| && Verdict(rows, a.rule) == Some(a.details))
    && (forall n: nat :: n < |rows| && (n < |rows| - 1 || rows[n].action == Allow || exists p: Env :: p !in rows[n].packets) ==>
          Verdict(rows, n) == None || RuleAnomaly(n, Verdict(rows, n).value) in anomalies)
    && (forall n: nat, p :: n < |rows| && Verdict(rows, n).Some? && RuleAnomaly(n, Verdict(rows, n).value) !in anomalies ==>
          n == |rows| - 1 && (Decision(rows[..n], p) == None ==> Decision(rows, p) == Some(Deny)))
  }

  /** Analyzer::check_anomaly. */
  method CheckAnomaly(k: Kernel, acl: seq<Rule>) returns (anomalies: seq<RuleAnomaly>, missingDenyAll: bool)
    requires k.Valid() && ValidRules(k.nodes, acl)
    modifies k
    ensures k.Valid() && k.Kept()
    ensures ValidRules(k.nodes, acl) && Rows(k.nodes, acl) == old(Rows(k.nodes, acl))
    ensures anomalies == Reports(Rows(k.nodes, acl), |acl|) && Justified(Rows(k.nodes, acl), anomalies)
    ensures missingDenyAll <==> !AllDecided(Rows(k.nodes, acl))
  {
    hide k.Valid, WellFormed, Verdict, CacheOk, Justified;
    anomalies := [];
    ghost var t0, rows := k.nodes, Rows(k.nodes, acl);
    var state := new State(k);
    var cache: Bddcache := map[];
    assert rows[..0] == [];
    CacheEmpty(k.nodes, rows);
    for n := 0 to |acl|
      invariant k.Valid() && k.Kept()
      invariant ValidRules(k.nodes, acl) && rows == Rows(k.nodes, acl)
      invariant CacheOk(k.nodes, rows, n, cache)
      invariant state.Reflects(k.nodes, rows[..n])
      invariant anomalies == Reports(rows, n)
    {
      var o;
      o, cache := Judge(k, acl, n, state, cache, rows);
      if o.Some? {
        anomalies := anomalies + [RuleAnomaly(n, o.value)];
      }
    }
    assert rows[..|acl|] == rows;
    var none := IsNone(k, state.remaining);
    missingDenyAll := !none;
    SomeUndecided(rows);
    ReportsJustified(rows);
  }

  lemma CacheEmpty(t: seq<Node>, rows: seq<Row>)
    requires WellFormed(t)
    ensures CacheOk(t, rows, 0, map[])
  {
  }

  ghost predicate AllDecided(rows: seq<Row>) {
    forall p :: Decision(rows, p) != None
  }

  lemma SomeUndecided(rows: seq<Row>)
    ensures Undecided(rows) == iset{} <==> AllDecided(rows)
  {
    if AllDecided(rows) {
      assert Undecided(rows) == iset{};
    }
    if Undecided(rows) == iset{} {
      forall p ensures Decision(rows, p) != None {
        assert p !in Undecided(rows);
      }
    }
  }

  /** Each report is the verdict on its rule, and each verdict is reported, but for a final deny-all. */
  lemma {:induction false} ReportsExactly(rows: seq<Row>, n: nat)
    requires n <= |rows|
    ensures forall a :: a in Reports(rows, n) <==>
      a.rule < n && !Skipped(rows, a.rule) && Verdict(rows, a.rule) == Some(a.details)
  {
    if n > 0 { ReportsExactly(rows, n - 1); }
  }

  lemma {:induction false} ReportsAscend(rows: seq<Row>, n: nat)
    requires n <= |rows|
    ensures forall i, j :: 0 <= i < j < |Reports(rows, n)| ==> Reports(rows, n)[i].rule < Reports(rows, n)[j].rule
  {
    if n > 0 {
      ReportsAscend(rows, n - 1);
      ReportsExactly(rows, n - 1);
      var before := Reports(rows, n - 1);
      assert forall i :: 0 <= i < |before| ==> before[i] in before;
    }
  }

  lemma ReportsJustified(rows: seq<Row>)
    ensures Justified(rows, Reports(rows, |rows|))
  {
    hide Verdict, Reports, Decision, Skipped;
    ReportsExactly(rows, |rows|);
    ReportsAscend(rows, |rows|);
    forall n: nat | n < |rows|
      ensures Skipped(rows, n) ==> !(n < |rows| - 1 || rows[n].action == Allow || exists p: Env :: p !in rows[n].packets)
      ensures Skipped(rows, n) ==> forall p :: Decision(rows[..n], p) == None ==> Decision(rows, p) == Some(Deny)
    {
      if Skipped(rows, n) { SkippedDenies(rows, n); }
    }
  }

  lemma SkippedDenies(rows: seq<Row>, n: nat)
    requires n < |rows| && Skipped(rows, n)
    ensures n == |rows| - 1 && rows[n].action == Deny && forall p: Env :: p in rows[n].packets
    ensures forall p :: Decision(rows[..n], p) == None ==> Decision(rows, p) == Some(Deny)
  {
    assert forall p: Env :: p in AllPackets();
    assert rows == rows[..n] + [rows[n]];
    forall p ensures Decision(rows[..n], p) == None ==> Decision(rows, p) == Some(Deny) {
      DecisionPush(rows[..n], rows[n], p);
    }
  }

  /** What is reported of a partly masked rule, unless it is the last and denies all packets: generalization exactly
      when a rule with the opposite action lies inside it; else partial redundancy exactly when some of its
      packets had its action before and a rule with this action lies inside it; else correlation exactly when
      some of its packets had the opposite action before. */
  lemma PartlyMaskedReported(rows: seq<Row>, n: nat)
    requires n < |rows| && DistinctIds(rows) && PartlyMasked(rows, n)
    requires n < |rows| - 1 || rows[n].action == Allow || exists p: Env :: p !in rows[n].packets
    ensures var same, opposite, anomalies := rows[n].action, Opposite(rows[n].action), Reports(rows, |rows|);
      var general := HasInside(rows, n, opposite);
      var redundant := GotBefore(rows, n, same) && HasInside(rows, n, same);
      && (HasReport(anomalies, n, (d: Details) => d.Generalization?) <==> general)
      && (HasReport(anomalies, n, (d: Details) => d.PartialRedundant?) <==> !general && redundant)
      && (HasReport(anomalies, n, (d: Details) => d.Correlated?) <==> !general && !redundant && GotBefore(rows, n, opposite))
      && !HasReport(anomalies, n, (d: Details) => ReportsFullyMasked(Some(d)))
  {
    hide Verdict, HasInside, GotBefore;
    ReportsJustified(rows);
    PartlyMaskedKinds(rows, n);
    OnlyReport(rows, Reports(rows, |rows|), n);
  }

  /** A rule is reported at most once, and as its verdict says. */
  lemma OnlyReport(rows: seq<Row>, anomalies: seq<RuleAnomaly>, n: nat)
    requires n < |rows| && Justified(rows, anomalies)
    requires n < |rows| - 1 || rows[n].action == Allow || exists p: Env :: p !in rows[n].packets
    ensures forall kind: Details -> bool :: HasReport(anomalies, n, kind) <==>
      Verdict(rows, n).Some? && kind(Verdict(rows, n).value)
  {
    hide Verdict;
    forall kind: Details -> bool ensures HasReport(anomalies, n, kind) <==>
      Verdict(rows, n).Some? && kind(Verdict(rows, n).value)
    {
      if Verdict(rows, n).Some? && kind(Verdict(rows, n).value) {
        assert RuleAnomaly(n, Verdict(rows, n).value) in anomalies;
      }
    }
  }

  /** What is reported of a fully masked rule, under the same proviso. */
  lemma FullyMaskedReported(rows: seq<Row>, n: nat)
    requires n < |rows|
    requires n < |rows| - 1 || rows[n].action == Allow || exists p: Env :: p !in rows[n].packets
    ensures var mine, before, anomalies := rows[n].packets, rows[..n], Reports(rows, |rows|);
      var masked := mine != iset{} && forall p :: p in mine ==> Decision(before, p) != None;
      var shadowed := masked && forall p :: p in mine ==> Decision(before, p) == Some(Opposite(rows[n].action));
      var redundant := masked && forall p :: p in mine ==> Decision(before, p) == Some(rows[n].action);
      && (HasReport(anomalies, n, (d: Details) => d.Shadowed?) <==> shadowed)
      && (HasReport(anomalies, n, (d: Details) => d.FullRedundant?) <==> redundant)
      && (HasReport(anomalies, n, (d: Details) => d.RedundantOrCorrelated?) <==> masked && !shadowed && !redundant)
  {
    hide Verdict;
    ReportsJustified(rows);
    FullyMasked(rows, n);
    if ReportsFullyMasked(Verdict(rows, n)) { FullyMaskedKinds(rows, n); }
    OnlyReport(rows, Reports(rows, |rows|), n);
  }

  /** The rules that are reported as fully masked can be deleted, any of them or all at once. */
  lemma ReportedRemovable(rows: seq<Row>, drop: set<nat>, p: Env)
    requires forall i :: i in drop ==>
      exists a :: a in Reports(rows, |rows|) && a.rule == i && ReportsFullyMasked(Some(a.details))
    ensures Decision(Without(rows, |rows|, drop), p) == Decision(rows, p)
  {
    ReportsExactly(rows, |rows|);
    FullyMaskedRemovable(rows, drop, p);
  }

  lemma Reported(rows: seq<Row>, n: nat, details: Details)
    requires n < |rows| && !Skipped(rows, n) && Verdict(rows, n) == Some(details)
    ensures exists a :: a in Reports(rows, |rows|) && a.rule == n
  {
    ReportsExactly(rows, |rows|);
    assert RuleAnomaly(n, details) in Reports(rows, |rows|);
  }

  /** A rule on which the analysis is silent decides as if it stood alone: each of its packets gets its
      action in the end. */
  lemma SilentRule(rows: seq<Row>, n: nat, p: Env)
    requires n < |rows| && IdsTell(rows, n) && !Skipped(rows, n) && p in rows[n].packets
    requires forall a :: a in Reports(rows, |rows|) ==> a.rule != n
    ensures Decision(rows, p) == Some(rows[n].action)
  {
    match Verdict(rows, n) {
      case None =>
        SilenceIsSound(rows, n, p);
      case Some(details) =>
        Reported(rows, n, details);
        assert false;
    }
  }

  /** One round of the analysis: enter the rule, judge it, and let it decide its packets. */
  method Judge(k: Kernel, acl: seq<Rule>, n: nat, state: State, before: Bddcache, ghost rows: seq<Row>)
    returns (o: Option<Details>, cache: Bddcache)
    requires k.Valid() && n < |acl| && ValidRules(k.nodes, acl) && rows == Rows(k.nodes, acl)
    requires CacheOk(k.nodes, rows, n, before) && state.Reflects(k.nodes, rows[..n])
    modifies k, state
    ensures k.Valid() && k.Kept()
    ensures ValidRules(k.nodes, acl) && rows == Rows(k.nodes, acl)
    ensures CacheOk(k.nodes, rows, n + 1, cache) && state.Reflects(k.nodes, rows[..n + 1])
    ensures o == if Skipped(rows, n) then None else Verdict(rows, n)
  {
    hide k.Valid, WellFormed, Verdict, CacheOk;
    ghost var t := k.nodes;
    cache := before[acl[n].id := acl[n].packets];
    EnterRule(t, rows, n, before, acl[n].packets);
    o := None;
    var any := IsAny(k, acl[n].packets);
    if !(acl[n].action == Deny && any && n == |acl| - 1) {
      o := CheckRule(k, acl, n, state, cache, rows);
      ExtendReady(t, k.nodes, acl, rows, n, state, cache);
    }
    ghost var t1 := k.nodes;
    CacheHit(t1, rows, n, n, cache);
    state.Update(k, acl[n].action, cache[acl[n].id], rows[..n], acl[n].id);
    assert rows[..n + 1] == rows[..n] + [rows[n]];
    ExtendRows(t, k.nodes, acl);
    ExtendCache(t1, k.nodes, rows, n + 1, cache);
  }
}
